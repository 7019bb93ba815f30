/**
 Whole runs: an iterator is made, and then anything happens in any order, insertions and removals by
 anyone (other iterators included) and calls of this iterator's `Next` and `Remove`.
 */
module WeakConsistency {
  import opened DequeModel
  import opened DequeIteration

  /** `UnlinkAt(i)` is any removal by `unlink` of the node at place `i`: by value, or by another iterator.
      A call that finds the deque full, or empty, is no event: it changes nothing. */
  datatype Event =
    | PutFirst(x: Node, e: Item)
    | PutLast(x: Node, e: Item)
    | TakeFirst
    | TakeLast
    | UnlinkAt(i: nat)
    | IterNext
    | IterRemove

  datatype World = World(s: State, it: Iter)

  ghost predicate Good(w: World) {
    Inv(w.s) && IterInv(w.s, w.it)
  }

  ghost predicate Enabled(w: World, ev: Event) {
    match ev
    case PutFirst(x, e) => x !in w.s.cells && w.s.count < w.s.capacity
    case PutLast(x, e) => x !in w.s.cells && w.s.count < w.s.capacity
    case TakeFirst => w.s.order != []
    case TakeLast => w.s.order != []
    case UnlinkAt(i) => i < |w.s.order|
    case IterNext => true
    case IterRemove => true
  }

  ghost function Place(s: State, n: Node): (i: nat)
    requires Inv(s) && Live(s, n)
    ensures i < |s.order| && s.order[i] == n
  {
    var i :| 0 <= i < |s.order| && s.order[i] == n;
    i
  }

  /** `Remove` without a preceding `Next` panics and changes nothing. */
  ghost function Step(w: World, ev: Event): World
    requires Good(w) && Enabled(w, ev)
  {
    match ev
    case PutFirst(x, e) => w.(s := PushFirst(w.s, x, e))
    case PutLast(x, e) => w.(s := PushLast(w.s, x, e))
    case TakeFirst => w.(s := PopFirst(w.s))
    case TakeLast => w.(s := PopLast(w.s))
    case UnlinkAt(i) => w.(s := Unlink(w.s, i))
    case IterNext => if w.it.next == null then w else w.(it := Advance(w.s, w.it))
    case IterRemove =>
      if w.it.lastRet == null then w
      else if Live(w.s, w.it.lastRet) then World(Unlink(w.s, Place(w.s, w.it.lastRet)), w.it.(lastRet := null))
      else w.(it := w.it.(lastRet := null))
  }

  /** What no operation ever undoes: nodes keep their history, the dead stay dead with their links
      frozen, and newcomers are dated later than everything before. */
  ghost predicate Evolved(s: State, t: State) {
    && s.clock <= t.clock
    && s.cells.Keys <= t.cells.Keys
    && (forall x | x in s.cells ::
          && t.cells[x].life.pos == s.cells[x].life.pos
          && t.cells[x].life.born == s.cells[x].life.born
          && t.cells[x].life.value == s.cells[x].life.value
          && (!Live(s, x) ==> t.cells[x] == s.cells[x]))
    && (forall x | x in t.cells && x !in s.cells :: s.clock < t.cells[x].life.born)
  }

  lemma RemovalEvolves(s: State, t: State, i: nat)
    requires Inv(s) && i < |s.order| && Removed(s, t, i)
    ensures Evolved(s, t)
  {
    Along(s, i, false);
    Along(s, i, true);
    forall n | n in s.cells && !Live(s, n) ensures t.cells[n] == s.cells[n] {
      assert Link(t, n, false) == Link(s, n, false) && Link(t, n, true) == Link(s, n, true);
    }
  }

  lemma InsertionEvolves(s: State, t: State, x: Node, e: Item, at: bool)
    requires Inv(s) && Inserted(s, t, x, e, at)
    ensures Evolved(s, t)
  {
    if s.order != [] { StartIsLeast(s, at); }
    forall n | n in s.cells && !Live(s, n) ensures t.cells[n] == s.cells[n] {
      assert Link(t, n, at) == Link(s, n, at) && Link(t, n, !at) == Link(s, n, !at);
    }
  }

  lemma PutFirstGood(s: State, it: Iter, x: Node, e: Item)
    requires Inv(s) && IterInv(s, it) && x !in s.cells && s.count < s.capacity
    ensures Inv(PushFirst(s, x, e)) && IterInv(PushFirst(s, x, e), it) && Evolved(s, PushFirst(s, x, e))
  {
    PushFirstInv(s, x, e);
    InsertionEvolves(s, PushFirst(s, x, e), x, e, false);
    InsertionKeepsIter(s, PushFirst(s, x, e), x, e, it);
  }

  lemma PutLastGood(s: State, it: Iter, x: Node, e: Item)
    requires Inv(s) && IterInv(s, it) && x !in s.cells && s.count < s.capacity
    ensures Inv(PushLast(s, x, e)) && IterInv(PushLast(s, x, e), it) && Evolved(s, PushLast(s, x, e))
  {
    PushLastInv(s, x, e);
    InsertionEvolves(s, PushLast(s, x, e), x, e, true);
    InsertionKeepsIter(s, PushLast(s, x, e), x, e, it);
  }

  lemma UnlinkGood(s: State, it: Iter, i: nat)
    requires Inv(s) && IterInv(s, it) && i < |s.order|
    ensures Inv(Unlink(s, i)) && IterInv(Unlink(s, i), it) && Evolved(s, Unlink(s, i))
  {
    UnlinkInv(s, i);
    RemovalEvolves(s, Unlink(s, i), i);
    RemovalKeepsIter(s, Unlink(s, i), s.order[i], it);
  }

  lemma PopGood(s: State, it: Iter)
    requires Inv(s) && IterInv(s, it) && s.order != []
    ensures Inv(PopFirst(s)) && IterInv(PopFirst(s), it) && Evolved(s, PopFirst(s))
    ensures Inv(PopLast(s)) && IterInv(PopLast(s), it) && Evolved(s, PopLast(s))
  {
    PopInv(s);
    var k := |s.order| - 1;
    assert s.order[0] in s.cells && s.order[k] in s.cells;
    hide Inv, IterInv, Evolved, Lost, Bypassed;
    RemovalEvolves(s, PopFirst(s), 0);
    RemovalKeepsIter(s, PopFirst(s), s.order[0], it);
    RemovalEvolves(s, PopLast(s), k);
    RemovalKeepsIter(s, PopLast(s), s.order[k], it);
  }

  lemma ForgetLast(s: State, it: Iter)
    requires IterInv(s, it)
    ensures IterInv(s, it.(lastRet := null))
  {
  }

  lemma IterRemoveGood(w: World)
    requires Good(w)
    ensures Good(Step(w, IterRemove)) && Evolved(w.s, Step(w, IterRemove).s)
  {
    hide Inv, IterInv, Evolved;
    EvolvedReflexive(w.s);
    ForgetLast(w.s, w.it);
    if w.it.lastRet != null && Live(w.s, w.it.lastRet) {
      UnlinkGood(w.s, w.it, Place(w.s, w.it.lastRet));
      ForgetLast(Unlink(w.s, Place(w.s, w.it.lastRet)), w.it);
    }
  }

  lemma EvolvedReflexive(s: State)
    ensures Evolved(s, s)
  {
  }

  lemma StepGood(w: World, ev: Event)
    requires Good(w) && Enabled(w, ev)
    ensures Good(Step(w, ev)) && Evolved(w.s, Step(w, ev).s)
    ensures Step(w, ev).it.since == w.it.since && Step(w, ev).it.desc == w.it.desc
  {
    hide Inv, IterInv, Evolved;
    match ev
    case PutFirst(x, e) => PutFirstGood(w.s, w.it, x, e);
    case PutLast(x, e) => PutLastGood(w.s, w.it, x, e);
    case TakeFirst => PopGood(w.s, w.it);
    case TakeLast => PopGood(w.s, w.it);
    case UnlinkAt(i) => UnlinkGood(w.s, w.it, i);
    case IterNext =>
      EvolvedReflexive(w.s);
      if w.it.next != null { AdvanceInv(w.s, w.it); }
    case IterRemove => IterRemoveGood(w);
  }

  /** What each event does to the contents. The iterator's `Remove` takes out the node that `Next` returned
      last, if it is still there, and forgets it; it does nothing else, and nothing to the deque if the node is
      gone. */
  lemma StepItems(w: World, ev: Event)
    requires Good(w) && Enabled(w, ev)
    ensures var t := Step(w, ev).s;
            && Good(Step(w, ev))
            && (ev.PutFirst? ==> Items(t) == [ev.e] + Items(w.s))
            && (ev.PutLast? ==> Items(t) == Items(w.s) + [ev.e])
            && (ev.TakeFirst? ==> Items(t) == Items(w.s)[1..])
            && (ev.TakeLast? ==> Items(t) == Items(w.s)[..|w.s.order| - 1])
            && (ev.UnlinkAt? ==> Items(t) == Items(w.s)[..ev.i] + Items(w.s)[ev.i + 1..])
            && (ev.IterNext? ==> t == w.s)
            && (ev.IterRemove? ==> Step(w, ev).it == w.it.(lastRet := null))
            && (ev.IterRemove? && (w.it.lastRet == null || !Live(w.s, w.it.lastRet)) ==> t == w.s)
            && (ev.IterRemove? && w.it.lastRet != null && Live(w.s, w.it.lastRet) ==>
                  && !Live(t, w.it.lastRet)
                  && var i := Place(w.s, w.it.lastRet); Items(t) == Items(w.s)[..i] + Items(w.s)[i + 1..])
  {
    hide Inv, IterInv, Evolved, Items, Removed, PushFirst, PushLast, PopFirst, PopLast, Unlink, Advance;
    StepGood(w, ev);
    match ev
    case PutFirst(x, e) => PushFirstInv(w.s, x, e);
    case PutLast(x, e) => PushLastInv(w.s, x, e);
    case TakeFirst => PopInv(w.s);
    case TakeLast => PopInv(w.s);
    case UnlinkAt(i) => UnlinkInv(w.s, i);
    case IterNext =>
    case IterRemove =>
      if w.it.lastRet != null && Live(w.s, w.it.lastRet) {
        var i := Place(w.s, w.it.lastRet);
        UnlinkInv(w.s, i);
        UnlinkedIsDead(w.s, i);
      }
  }

  lemma UnlinkedIsDead(s: State, i: nat)
    requires Inv(s) && i < |s.order|
    ensures s.order[i] in s.cells && !Live(Unlink(s, i), s.order[i])
  {
    hide Unlink, Bypassed, Guides, Dated, Counted;
    UnlinkInv(s, i);
  }

  /** `evs` is a run from `w`: every event is possible when its turn comes. */
  ghost predicate Possible(w: World, evs: seq<Event>)
    requires Good(w)
    decreases |evs|
  {
    evs == [] || (Enabled(w, evs[0]) && (StepGood(w, evs[0]); Possible(Step(w, evs[0]), evs[1..])))
  }

  ghost function Run(w: World, evs: seq<Event>): World
    requires Good(w) && Possible(w, evs)
    decreases |evs|
  {
    if evs == [] then w else StepGood(w, evs[0]); Run(Step(w, evs[0]), evs[1..])
  }

  lemma {:induction false} RunGood(w: World, evs: seq<Event>)
    requires Good(w) && Possible(w, evs)
    ensures Good(Run(w, evs)) && Evolved(w.s, Run(w, evs).s)
    ensures Run(w, evs).it.since == w.it.since && Run(w, evs).it.desc == w.it.desc
    decreases |evs|
  {
    if evs != [] {
      StepGood(w, evs[0]);
      RunGood(Step(w, evs[0]), evs[1..]);
      EvolvedTransitive(w.s, Step(w, evs[0]).s, Run(w, evs).s);
    }
  }

  lemma EvolvedTransitive(s: State, t: State, u: State)
    requires Evolved(s, t) && Evolved(t, u)
    ensures Evolved(s, u)
  {
  }

  // ---- Survivors, in order -------------------------------------------------------------------------

  /** The members of `keep`, in the order of `q`. */
  ghost function Select(q: seq<Node>, keep: set<Node>): (r: seq<Node>)
    ensures forall x | x in q && x in keep :: x in r
    ensures forall x | x in r :: x in q && x in keep
  {
    if q == [] then []
    else if q[0] in keep then [q[0]] + Select(q[1..], keep)
    else Select(q[1..], keep)
  }

  ghost predicate Sorted(s: State, desc: bool, q: seq<Node>) {
    && (forall x | x in q :: x in s.cells)
    && (forall i, j | 0 <= i < j < |q| :: Key(s, q[i], desc) < Key(s, q[j], desc))
  }

  lemma {:induction false} SelectSorted(s: State, desc: bool, q: seq<Node>, keep: set<Node>)
    requires forall x | x in q && x in keep :: x in s.cells
    requires forall i, j | 0 <= i < j < |q| && q[i] in keep && q[j] in keep :: Key(s, q[i], desc) < Key(s, q[j], desc)
    ensures Sorted(s, desc, Select(q, keep))
  {
    if q != [] {
      SelectSorted(s, desc, q[1..], keep);
      var r := Select(q[1..], keep);
      forall x | x in r && q[0] in keep ensures Key(s, q[0], desc) < Key(s, x, desc) {
        var j :| 0 <= j < |q[1..]| && q[1..][j] == x;
        assert q[j + 1] == x;
      }
    }
  }

  lemma NonEmptyToo(a: seq<Node>, b: seq<Node>)
    requires forall x | x in a :: x in b
    ensures a != [] ==> b != []
  {
    if a != [] { assert a[0] in b; }
  }

  lemma FirstIsLeast(s: State, desc: bool, q: seq<Node>, x: Node)
    requires Sorted(s, desc, q) && x in q
    ensures q[0] in s.cells && x in s.cells && (x == q[0] || Key(s, q[0], desc) < Key(s, x, desc))
  {
    var i :| 0 <= i < |q| && q[i] == x;
  }

  lemma SameFirst(s: State, desc: bool, a: seq<Node>, b: seq<Node>)
    requires Sorted(s, desc, a) && Sorted(s, desc, b) && a != [] && b != [] && a[0] in b && b[0] in a
    ensures a[0] == b[0]
  {
    hide Sorted;
    FirstIsLeast(s, desc, a, b[0]);
    FirstIsLeast(s, desc, b, a[0]);
  }

  /** Sorted sequences with the same elements are the same. */
  lemma {:induction false} SortedUnique(s: State, desc: bool, a: seq<Node>, b: seq<Node>)
    requires Sorted(s, desc, a) && Sorted(s, desc, b)
    requires (forall x | x in a :: x in b) && (forall x | x in b :: x in a)
    ensures a == b
  {
    hide Sorted;
    NonEmptyToo(a, b);
    NonEmptyToo(b, a);
    if a != [] {
      SameFirst(s, desc, a, b);
      SortedTail(s, desc, a, b);
      SortedTail(s, desc, b, a);
      SortedUnique(s, desc, a[1..], b[1..]);
      assert a == [a[0]] + a[1..] && b == [b[0]] + b[1..];
    }
  }

  lemma SortedTail(s: State, desc: bool, a: seq<Node>, b: seq<Node>)
    requires Sorted(s, desc, a) && a != [] && b != [] && a[0] == b[0]
    requires forall x | x in a :: x in b
    ensures forall x | x in a[1..] :: x in b[1..]
    ensures Sorted(s, desc, a[1..])
  {
    forall x | x in a[1..] ensures x in b[1..] {
      var i :| 0 <= i < |a[1..]| && a[1..][i] == x;
      assert x == a[i + 1] && x in a;
      var j :| 0 <= j < |b| && b[j] == x;
      assert b[1..][j - 1] == x;
    }
  }

  // ---- The result ----------------------------------------------------------------------------------

  ghost function Oriented(q: seq<Node>, desc: bool): seq<Node> {
    if desc then seq(|q|, i requires 0 <= i < |q| => q[|q| - 1 - i]) else q
  }

  /** The nodes in the deque both when the iterator was made and now. */
  ghost function Survivors(s: State, t: State): set<Node> {
    set x | x in s.order && Live(t, x)
  }

  ghost function Begin(s: State, desc: bool): (w: World)
    requires Inv(s)
    ensures Good(w) && w.s == s && w.it.since == s.clock && w.it.desc == desc && w.it.returned == []
  {
    NewIterInv(s, desc);
    World(s, NewIter(s, desc))
  }

  /** Whatever happens to the deque while an iterator is in use: it never returns a node twice; as long as
      it says it has a next element it has one; and once it says it has none, the nodes that were in the
      deque all the time have all been returned, in deque order (reversed for a descending iterator). */
  lemma WeaklyConsistent(s: State, desc: bool, evs: seq<Event>)
    requires Inv(s) && Possible(Begin(s, desc), evs)
    ensures var w := Run(Begin(s, desc), evs);
            && (forall i, j | 0 <= i < j < |w.it.returned| :: w.it.returned[i] != w.it.returned[j])
            && (w.it.next != null ==> w.it.nextItem.Some?)
            && (w.it.next == null ==>
                  Select(w.it.returned, Survivors(s, w.s)) == Select(Oriented(s.order, desc), Survivors(s, w.s)))
  {
    var w := Run(Begin(s, desc), evs);
    RunGood(Begin(s, desc), evs);
    if w.it.next == null {
      SurvivorsInOrder(s, w, desc);
    }
  }

  /** The nodes that stayed were there at the beginning, and all of them were returned. */
  lemma SurvivorsReturned(s: State, w: World, desc: bool)
    requires Inv(s) && Good(w) && Evolved(s, w.s) && w.it.since == s.clock && w.it.next == null
    ensures forall x | x in Survivors(s, w.s) :: x in Oriented(s.order, desc) && x in w.it.returned
    ensures forall x | x in Oriented(s.order, desc) :: x in s.cells && x in w.s.cells
  {
    hide Guides, Evolved, Counted;
    var q := Oriented(s.order, desc);
    StillKnown(s, w.s);
    forall x | x in Survivors(s, w.s) ensures x in q && x in w.it.returned {
      var i :| 0 <= i < |s.order| && s.order[i] == x;
      assert q[if desc then |q| - 1 - i else i] == x;
    }
  }

  lemma StillKnown(s: State, t: State)
    requires Inv(s) && Evolved(s, t)
    ensures forall x | x in s.order :: x in s.cells && x in t.cells && t.cells[x].life.born <= s.clock
  {
  }

  lemma SurvivorsInOrder(s: State, w: World, desc: bool)
    requires Inv(s) && Good(w) && Evolved(s, w.s) && w.it.since == s.clock && w.it.desc == desc && w.it.next == null
    ensures Select(w.it.returned, Survivors(s, w.s)) == Select(Oriented(s.order, desc), Survivors(s, w.s))
  {
    hide Inv, IterInv, Evolved, Survivors, Oriented, Sorted, Select;
    var keep := Survivors(s, w.s);
    var q := Oriented(s.order, desc);
    BothSorted(s, w, desc);
    SortedUnique(w.s, desc, Select(w.it.returned, keep), Select(q, keep));
  }

  lemma BothSorted(s: State, w: World, desc: bool)
    requires Inv(s) && Good(w) && Evolved(s, w.s) && w.it.since == s.clock && w.it.desc == desc && w.it.next == null
    ensures Sorted(w.s, desc, Select(Oriented(s.order, desc), Survivors(s, w.s)))
    ensures Sorted(w.s, desc, Select(w.it.returned, Survivors(s, w.s)))
    ensures forall x | x in Select(w.it.returned, Survivors(s, w.s)) ::
            x in Select(Oriented(s.order, desc), Survivors(s, w.s))
    ensures forall x | x in Select(Oriented(s.order, desc), Survivors(s, w.s)) ::
            x in Select(w.it.returned, Survivors(s, w.s))
  {
    hide Guides;
    SurvivorsReturned(s, w, desc);
    SelectSorted(w.s, desc, Oriented(s.order, desc), Survivors(s, w.s));
    SelectSorted(w.s, desc, w.it.returned, Survivors(s, w.s));
  }
}
