/**
 The linked deque and its iterators as they live in the heap. Every method is tied to the pointer
 operations of DequeModel, so what is proved there about states and runs holds of the objects here.
 Locking is not modelled here: each method body is one critical section. Blocking is in BlockingDeque.
 */
module LinkedDeque {
  import opened Wrappers
  import opened DequeModel
  import opened DequeIteration
  import opened WeakConsistency

  class Deque {
    var first: Node?
    var last: Node?
    var count: int
    const capacity: int

    ghost var st: State  // the abstract state: every node ever linked, and the history

    /** The heap is what the abstract state says it is. */
    ghost predicate Agrees()
      reads this, st.cells.Keys
    {
      && first == st.first && last == st.last && count == st.count && capacity == st.capacity
      && forall n | n in st.cells :: n.Is(st.cells[n])
    }

    ghost predicate Valid()
      reads this, st.cells.Keys
    {
      Agrees() && Inv(st)
    }

    /** The contents, front to back. */
    ghost function Contents(): seq<Item>
      requires Valid()
      reads this, st.cells.Keys
    {
      Items(st)
    }

    lemma InHeap(n: Node)
      requires Valid() && n in st.cells
      ensures n.item == st.cells[n].item && n.prev == st.cells[n].prev && n.next == st.cells[n].next
    {
    }

    /** The node at place `i`, as a walk along the links meets it. */
    lemma AtPlace(i: nat)
      requires Valid() && i < |st.order|
      ensures st.order[i] in st.cells && st.order[i].item == Some(Contents()[i])
      ensures st.order[i].next == Neighbour(st, i, false) && st.order[i].prev == Neighbour(st, i, true)
    {
      hide Inv;
      BothAdjacent(st, i);
      NodeItem(st, i);
    }

    lemma EndsInHeap()
      requires Valid()
      ensures first == if st.order == [] then null else st.order[0]
      ensures last == if st.order == [] then null else st.order[|st.order| - 1]
      ensures count == st.count == |st.order| == |Contents()| && capacity == st.capacity
    {
    }

    constructor (capacity: nat)
      ensures Valid() && Contents() == [] && st == Empty(capacity) && this.capacity == capacity
    {
      this.first, this.last, this.count, this.capacity := null, null, 0, capacity;
      st := Empty(capacity);
      EmptyInv(capacity);
    }

    method LinkFirst(e: Item) returns (ok: bool)
      requires Valid()
      modifies this, st.cells.Keys
      ensures Valid() && ok == (old(count) < capacity)
      ensures !ok ==> st == old(st)
      ensures ok ==> first != null && fresh(first) && st == PushFirst(old(st), first, e)
    {
      hide Inv, Items, Inserted, PushFirst, Node.Is;
      if count >= capacity {
        return false;
      }
      ghost var s := st;
      var f := first;
      var x := new Node(Some(e), null, f);
      PushFirstInv(s, x, e);
      PushFirstCells(s, x, e);
      st := PushFirst(s, x, e);
      first := x;
      if last == null {
        last := x;
      } else {
        Holds(f, s.cells[f]);
        f.prev := x;
        IsNow(f, st.cells[f]);
      }
      count := count + 1;
      IsNow(x, st.cells[x]);
      return true;
    }

    method LinkLast(e: Item) returns (ok: bool)
      requires Valid()
      modifies this, st.cells.Keys
      ensures Valid() && ok == (old(count) < capacity)
      ensures !ok ==> st == old(st)
      ensures ok ==> last != null && fresh(last) && st == PushLast(old(st), last, e)
    {
      hide Inv, Items, Inserted, PushLast, Node.Is;
      if count >= capacity {
        return false;
      }
      ghost var s := st;
      var l := last;
      var x := new Node(Some(e), l, null);
      PushLastInv(s, x, e);
      PushLastCells(s, x, e);
      st := PushLast(s, x, e);
      last := x;
      if first == null {
        first := x;
      } else {
        Holds(l, s.cells[l]);
        l.next := x;
        IsNow(l, st.cells[l]);
      }
      count := count + 1;
      IsNow(x, st.cells[x]);
      return true;
    }

    static lemma Holds(n: Node, c: Cell)
      requires n.Is(c)
      ensures n.item == c.item && n.prev == c.prev && n.next == c.next
    {
    }

    static lemma IsNow(n: Node, c: Cell)
      requires n.item == c.item && n.prev == c.prev && n.next == c.next
      ensures n.Is(c)
    {
    }

    /** The two ends are emptied alike: the removed node keeps the link out of the deque, which is nil, and
        the link into it becomes a self link. */
    method UnlinkFirst() returns (item: Option<Item>)
      requires Valid()
      modifies this, st.cells.Keys
      ensures Valid()
      ensures old(st).order == [] ==> item == None && st == old(st)
      ensures old(st).order != [] ==> item == Some(old(Contents())[0]) && st == PopFirst(old(st))
    {
      hide Inv, Items, Removed, PopFirst, PopLast, AlikeExcept, Node.Is;
      EndsLinked(st);
      var f := first;
      if f == null {
        return None;
      }
      ghost var s := st;
      PopInv(s);
      PopFirstCells(s);
      FirstItem(s);
      Holds(f, s.cells[f]);
      var n := f.next;
      item := f.item;
      st := PopFirst(s);
      f.item := None;
      f.next := f;
      IsNow(f, st.cells[f]);
      first := n;
      if n == null {
        last := null;
      } else {
        Holds(n, s.cells[n]);
        n.prev := null;
        IsNow(n, st.cells[n]);
      }
      count := count - 1;
      AllAlike(s, f, n, null);
    }

    /** The nodes that were not written still hold their cells. */
    lemma AllAlike(s: State, x: Node?, y: Node?, z: Node?)
      requires AlikeExcept(s, st, x, y, z)
      requires forall n | n in s.cells && n != x && n != y && n != z :: n.Is(s.cells[n])
      requires (x != null ==> x in s.cells && x.Is(st.cells[x])) && (y != null ==> y in s.cells && y.Is(st.cells[y]))
      requires z != null ==> z in s.cells && z.Is(st.cells[z])
      ensures forall n | n in st.cells :: n.Is(st.cells[n])
    {
      hide Node.Is;
    }

    method UnlinkLast() returns (item: Option<Item>)
      requires Valid()
      modifies this, st.cells.Keys
      ensures Valid()
      ensures old(st).order == [] ==> item == None && st == old(st)
      ensures old(st).order != [] ==> item == Some(old(Contents())[|old(st).order| - 1]) && st == PopLast(old(st))
    {
      hide Inv, Items, Removed, PopFirst, PopLast, AlikeExcept, Node.Is;
      EndsLinked(st);
      var l := last;
      if l == null {
        return None;
      }
      ghost var s := st;
      PopInv(s);
      PopLastCells(s);
      LastItem(s);
      Holds(l, s.cells[l]);
      var p := l.prev;
      item := l.item;
      st := PopLast(s);
      l.item := None;
      l.prev := l;
      IsNow(l, st.cells[l]);
      last := p;
      if p == null {
        first := null;
      } else {
        Holds(p, s.cells[p]);
        p.next := null;
        IsNow(p, st.cells[p]);
      }
      count := count - 1;
      AllAlike(s, l, p, null);
    }

    /** `x` is live, at place `i`. */
    method UnlinkNode(x: Node, ghost i: nat)
      requires Valid() && i < |st.order| && st.order[i] == x
      modifies this, st.cells.Keys
      ensures Valid() && st == Unlink(old(st), i)
    {
      hide Agrees, Inv, Items, PopFirst, PopLast, UnlinkInterior;
      AtPlace(i);
      InHeap(x);
      if x.prev == null {
        var _ := UnlinkFirst();
      } else if x.next == null {
        var _ := UnlinkLast();
      } else {
        UnlinkInner(x, i);
      }
    }

    method UnlinkInner(x: Node, ghost i: nat)
      requires Valid() && i < |st.order| && st.order[i] == x
      requires x in st.cells && st.cells[x].prev != null && st.cells[x].next != null
      modifies this, st.cells.Keys
      ensures Valid() && st == UnlinkInterior(old(st), i)
    {
      hide Inv, Items, Removed, UnlinkInterior, AlikeExcept, Node.Is;
      ghost var s := st;
      UnlinkInv(s, i);
      UnlinkInteriorCells(s, i);
      Holds(x, s.cells[x]);
      var p, n := x.prev, x.next;
      Holds(p, s.cells[p]);
      Holds(n, s.cells[n]);
      st := UnlinkInterior(s, i);
      p.next := n;
      n.prev := p;
      x.item := None;
      count := count - 1;
      IsNow(x, st.cells[x]);
      IsNow(p, st.cells[p]);
      IsNow(n, st.cells[n]);
      AllAlike(s, x, p, n);
    }

    // ---- Operations that do not block -------------------------------------------------------------

    /** False for nil and when the deque is full. */
    method OfferFirst(e: Option<Item>) returns (ok: bool)
      requires Valid()
      modifies this, st.cells.Keys
      ensures Valid() && ok == (e.Some? && |old(Contents())| < capacity)
      ensures Contents() == if ok then [e.value] + old(Contents()) else old(Contents())
      ensures !ok ==> st == old(st)
      ensures ok ==> first != null && fresh(first) && st == PushFirst(old(st), first, e.value)
      ensures fresh(st.cells.Keys - old(st.cells.Keys))
    {
      hide Agrees, Inv, Items, Inserted, PushFirst;
      if e == None {
        return false;
      }
      EndsInHeap();
      ghost var s := st;
      ok := LinkFirst(e.value);
      if ok {
        PushFirstInv(s, first, e.value);
        PushFirstCells(s, first, e.value);
      }
    }

    method OfferLast(e: Option<Item>) returns (ok: bool)
      requires Valid()
      modifies this, st.cells.Keys
      ensures Valid() && ok == (e.Some? && |old(Contents())| < capacity)
      ensures Contents() == if ok then old(Contents()) + [e.value] else old(Contents())
      ensures !ok ==> st == old(st)
      ensures ok ==> last != null && fresh(last) && st == PushLast(old(st), last, e.value)
      ensures fresh(st.cells.Keys - old(st.cells.Keys))
    {
      hide Agrees, Inv, Items, Inserted, PushLast;
      if e == None {
        return false;
      }
      EndsInHeap();
      ghost var s := st;
      ok := LinkLast(e.value);
      if ok {
        PushLastInv(s, last, e.value);
        PushLastCells(s, last, e.value);
      }
    }

    method PollFirst() returns (e: Option<Item>)
      requires Valid()
      modifies this, st.cells.Keys
      ensures Valid()
      ensures e == (if old(Contents()) == [] then None else Some(old(Contents())[0]))
      ensures Contents() == if old(Contents()) == [] then [] else old(Contents())[1..]
      ensures st == if old(st).order == [] then old(st) else PopFirst(old(st))
      ensures st.cells.Keys == old(st.cells.Keys)
    {
      hide Agrees, Inv, Items, Removed, PopFirst, PopLast;
      EndsInHeap();
      ghost var s := st;
      e := UnlinkFirst();
      if s.order != [] {
        PopInv(s);
        PopFirstCells(s);
      }
    }

    method PollLast() returns (e: Option<Item>)
      requires Valid()
      modifies this, st.cells.Keys
      ensures Valid()
      ensures var q := old(Contents()); e == if q == [] then None else Some(q[|q| - 1])
      ensures var q := old(Contents()); Contents() == if q == [] then [] else q[..|q| - 1]
      ensures st == if old(st).order == [] then old(st) else PopLast(old(st))
      ensures st.cells.Keys == old(st.cells.Keys)
    {
      hide Agrees, Inv, Items, Removed, PopFirst, PopLast;
      EndsInHeap();
      ghost var s := st;
      e := UnlinkLast();
      if s.order != [] {
        PopInv(s);
        PopLastCells(s);
      }
    }

    method PeekFirst() returns (e: Option<Item>)
      requires Valid()
      ensures e == if Contents() == [] then None else Some(Contents()[0])
    {
      if first == null {
        return None;
      }
      FirstItem(st);
      return first.item;
    }

    method PeekLast() returns (e: Option<Item>)
      requires Valid()
      ensures e == if Contents() == [] then None else Some(Contents()[|Contents()| - 1])
    {
      if last == null {
        return None;
      }
      LastItem(st);
      return last.item;
    }

    static ghost function FirstIndex(q: seq<Item>, e: Item): (i: nat)
      requires e in q
      ensures i < |q| && q[i] == e && forall j | 0 <= j < i :: q[j] != e
    {
      if q[0] == e then 0 else FirstIndex(q[1..], e) + 1
    }

    static ghost function LastIndex(q: seq<Item>, e: Item): (i: nat)
      requires e in q
      ensures i < |q| && q[i] == e && forall j | i < j < |q| :: q[j] != e
    {
      if q[|q| - 1] == e then |q| - 1 else LastIndex(q[..|q| - 1], e)
    }

    static lemma FirstIndexIs(q: seq<Item>, e: Item, i: nat)
      requires i < |q| && q[i] == e && forall j | 0 <= j < i :: q[j] != e
      ensures FirstIndex(q, e) == i
    {
    }

    static lemma LastIndexIs(q: seq<Item>, e: Item, i: nat)
      requires i < |q| && q[i] == e && forall j | i < j < |q| :: q[j] != e
      ensures LastIndex(q, e) == i
    {
    }

    /** Removes exactly the first element equal to `e`, or nothing if there is none. */
    method RemoveFirstOccurrence(e: Option<Item>) returns (ok: bool)
      requires Valid()
      modifies this, st.cells.Keys
      ensures Valid() && ok == (e.Some? && e.value in old(Contents()))
      ensures !ok ==> st == old(st)
      ensures ok ==> st == Unlink(old(st), FirstIndex(old(Contents()), e.value))
      ensures ok ==> Contents() == Without(old(Contents()), FirstIndex(old(Contents()), e.value))
    {
      hide Agrees, Inv, Items, Removed, Unlink, FirstIndex, Without;
      if e == None {
        return false;
      }
      ghost var s, q := st, Contents();
      EndsInHeap();
      var p := first;
      ghost var i: nat := 0;
      while p != null
        invariant Valid() && st == s
        invariant i <= |s.order| && p == if i == |s.order| then null else s.order[i]
        invariant forall j | 0 <= j < i :: q[j] != e.value
        decreases |s.order| - i
      {
        AtPlace(i);
        if e == p.item {
          UnlinkInv(s, i);
          FirstIndexIs(q, e.value, i);
          UnlinkNode(p, i);
          return true;
        }
        p := p.next;
        i := i + 1;
      }
      return false;
    }

    /** Removes exactly the last element equal to `e`, or nothing if there is none. */
    method RemoveLastOccurrence(e: Option<Item>) returns (ok: bool)
      requires Valid()
      modifies this, st.cells.Keys
      ensures Valid() && ok == (e.Some? && e.value in old(Contents()))
      ensures !ok ==> st == old(st)
      ensures ok ==> st == Unlink(old(st), LastIndex(old(Contents()), e.value))
      ensures ok ==> Contents() == Without(old(Contents()), LastIndex(old(Contents()), e.value))
    {
      hide Agrees, Inv, Items, Removed, Unlink, LastIndex, Without;
      if e == None {
        return false;
      }
      ghost var s, q := st, Contents();
      EndsInHeap();
      var p := last;
      ghost var k: nat := |s.order|;
      while p != null
        invariant Valid() && st == s
        invariant k <= |s.order| && p == if k == 0 then null else s.order[k - 1]
        invariant forall j | k <= j < |s.order| :: q[j] != e.value
        decreases k
      {
        ghost var i: nat := k - 1;
        AtPlace(i);
        if e == p.item {
          UnlinkInv(s, i);
          LastIndexIs(q, e.value, i);
          UnlinkNode(p, i);
          return true;
        }
        p := p.prev;
        k := i;
      }
      return false;
    }

    method ToSlice() returns (a: array<Option<Item>>)
      requires Valid()
      ensures fresh(a) && a.Length == |Contents()|
      ensures forall k | 0 <= k < a.Length :: a[k] == Some(Contents()[k])
    {
      hide Agrees, Inv, Items;
      EndsInHeap();
      a := new Option<Item>[count](_ => None);
      var p, k := first, 0;
      while p != null
        invariant 0 <= k <= |st.order| && p == if k == |st.order| then null else st.order[k]
        invariant forall j | 0 <= j < k :: a[j] == Some(Contents()[j])
        decreases |st.order| - k
      {
        AtPlace(k);
        a[k] := p.item;
        p, k := p.next, k + 1;
      }
    }
  }

  class DequeIterator {
    const q: Deque
    const desc: bool
    var next: Node?
    var nextItem: Option<Item>
    var lastRet: Node?

    ghost var returned: seq<Node>
    ghost var since: nat

    ghost function It(): Iter
      reads this
    {
      Iter(next, nextItem, lastRet, desc, returned, since)
    }

    ghost predicate Valid()
      reads this, q, q.st.cells.Keys
    {
      q.Valid() && IterInv(q.st, It())
    }

    constructor (q: Deque, desc: bool)
      requires q.Valid()
      ensures this.q == q && this.desc == desc && Valid() && World(q.st, It()) == Begin(q.st, desc)
    {
      NewIterInv(q.st, desc);
      EndsLinked(q.st);
      var n := if desc then q.last else q.first;
      this.q, this.desc, next, lastRet := q, desc, n, null;
      nextItem := if n == null then None else n.item;
      returned, since := [], q.st.clock;
      new;
      assert It() == NewIter(q.st, desc);
    }

    /** `succ`: the loop finds what following the links in the abstract state finds. */
    method SuccOf(start: Node) returns (r: Node?)
      requires q.Valid() && start in q.st.cells
      ensures r == Succ(q.st, start, desc)
    {
      hide Inv, Known;
      var n := start;
      while true
        invariant n in q.st.cells && Succ(q.st, n, desc) == Succ(q.st, start, desc)
        decreases KeyBound(q.st, desc) - Key(q.st, n, desc)
      {
        LinkLeadsOn(q.st, n, desc);
        var s := if desc then n.prev else n.next;
        if s == null {
          return null;
        } else if s.item != None {
          return s;
        } else if s == n {
          return if desc then q.last else q.first;
        }
        n := s;
      }
    }

    method Next() returns (x: Option<Item>)
      requires Valid()
      modifies this
      ensures Valid() && World(q.st, It()) == Step(old(World(q.st, It())), IterNext)
      ensures old(next) == null ==> x == None
      ensures old(next) != null ==>
                && x == Some(q.st.cells[old(next)].life.value) && returned == old(returned) + [old(next)]
                && lastRet == old(next)
    {
      hide Inv, IterInv, Succ, Deque.Agrees;
      if next == null {
        return None;
      }
      NextLinked(q.st, It());
      AdvanceInv(q.st, It());
      SuccGuides(q.st, next, desc);
      lastRet := next;
      x := nextItem;
      returned := returned + [next];
      next := SuccOf(next);
      if next == null {
        nextItem := None;
      } else {
        q.InHeap(next);
        nextItem := next.item;
      }
    }

    /** False stands for the panic on a call without a preceding `Next`. */
    method Remove() returns (ok: bool)
      requires Valid()
      modifies this, q, q.st.cells.Keys
      ensures Valid() && World(q.st, It()) == Step(old(World(q.st, It())), IterRemove)
      ensures ok == (old(lastRet) != null) && lastRet == null
      ensures old(lastRet) == null || !old(Live(q.st, lastRet)) ==> q.st == old(q.st)
      ensures old(lastRet) != null && old(Live(q.st, lastRet)) ==>
                && !Live(q.st, old(lastRet))
                && var i := Place(old(q.st), old(lastRet));
                   q.Contents() == old(q.Contents())[..i] + old(q.Contents())[i + 1..]
    {
      hide Inv, IterInv, Evolved, Unlink, Items, Removed, Deque.Agrees;
      var n := lastRet;
      if n == null {
        return false;
      }
      LastRetLinked(q.st, It());
      q.InHeap(n);
      StepItems(World(q.st, It()), IterRemove);
      lastRet := null;
      if n.item != None {
        q.UnlinkNode(n, Place(q.st, n));
      }
      return true;
    }
  }
}
