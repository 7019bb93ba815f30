/**
 The linked deque as a value: the pointers of every node ever linked, together with the history that
 explains them. A node that leaves the deque keeps a record here, because iterators may still stand on
 it and follow its links.
 */
module DequeModel {
  import opened Wrappers

  /** What the deque stores. Only equality is used. The language's nil is `None`. */
  type Item(==)

  /** A node's history: its place in the order of all nodes ever linked, when it was linked, when it was
      unlinked (meaningful once it is dead) and the item it was linked with. */
  datatype Life = Life(pos: int, born: nat, died: nat, value: Item)

  class Node {
    var item: Option<Item>
    var prev: Node?
    var next: Node?

    constructor (item: Option<Item>, prev: Node?, next: Node?)
      ensures this.item == item && this.prev == prev && this.next == next
    {
      this.item, this.prev, this.next := item, prev, next;
    }

    /** The fields are those of the cell. */
    ghost predicate Is(c: Cell)
      reads this
    {
      item == c.item && prev == c.prev && next == c.next
    }
  }

  /** The fields of a node, taken out of the heap, and its history. */
  datatype Cell = Cell(item: Option<Item>, prev: Node?, next: Node?, life: Life)

  datatype State = State(
    first: Node?, last: Node?, count: int, capacity: int,
    cells: map<Node, Cell>, order: seq<Node>, lo: int, hi: int, clock: nat)

  // ---- Reading a state ---------------------------------------------------------------------------

  ghost predicate Live(s: State, n: Node) {
    n in s.cells && s.cells[n].item.Some?
  }

  /** The link an iterator follows: `prev` when it descends, `next` otherwise. */
  ghost function Link(s: State, n: Node, desc: bool): Node?
    requires n in s.cells
  {
    if desc then s.cells[n].prev else s.cells[n].next
  }

  /** Where an iterator starts. */
  ghost function Start(s: State, desc: bool): Node? {
    if desc then s.last else s.first
  }

  /** Position in the direction of travel: links followed by an iterator lead to larger keys. */
  ghost function Key(s: State, n: Node, desc: bool): int
    requires n in s.cells
  {
    if desc then -s.cells[n].life.pos else s.cells[n].life.pos
  }

  ghost function KeyBound(s: State, desc: bool): int {
    if desc then -s.lo else s.hi
  }

  ghost predicate InCells(s: State) {
    forall i | 0 <= i < |s.order| :: s.order[i] in s.cells
  }

  /** The contents of the deque, front to back. */
  ghost function Items(s: State): (r: seq<Item>)
    requires InCells(s)
    ensures |r| == |s.order|
    ensures forall i | 0 <= i < |r| :: r[i] == s.cells[s.order[i]].life.value
  {
    seq(|s.order|, i requires 0 <= i < |s.order| => s.cells[s.order[i]].life.value)
  }

  // ---- The invariant -----------------------------------------------------------------------------

  /** The counters and the two end pointers agree with the order. */
  ghost predicate Counted(s: State) {
    && s.count == |s.order| <= s.capacity
    && s.first == (if s.order == [] then null else s.order[0])
    && s.last == (if s.order == [] then null else s.order[|s.order| - 1])
  }

  /** `order` lists exactly the live nodes, by position. */
  ghost predicate Listed(s: State) {
    && (forall i | 0 <= i < |s.order| :: Live(s, s.order[i]))
    && (forall n | n in s.cells :: Live(s, n) ==> n in s.order)
    && (forall i, j | 0 <= i < j < |s.order| :: s.cells[s.order[i]].life.pos < s.cells[s.order[j]].life.pos)
  }

  /** The history stays within its bounds, and live nodes hold the item they came with. */
  ghost predicate Dated(s: State) {
    && s.lo <= s.hi
    && (forall n | n in s.cells :: s.lo <= s.cells[n].life.pos <= s.hi && s.cells[n].life.born <= s.clock)
    && (forall n | n in s.cells :: !Live(s, n) ==> s.cells[n].life.born < s.cells[n].life.died <= s.clock)
    && (forall n | n in s.cells :: Live(s, n) ==> s.cells[n].item == Some(s.cells[n].life.value))
  }

  /** `x` is live and, if `n` is dead, was already linked when `n` was unlinked. */
  ghost predicate Known(s: State, x: Node, n: Node)
    requires n in s.cells
  {
    Live(s, x) && (Live(s, n) || s.cells[x].life.born < s.cells[n].life.died)
  }

  ghost predicate Outlives(s: State, l: Node, n: Node)
    requires n in s.cells && l in s.cells
  {
    Live(s, l) || (!Live(s, n) && s.cells[n].life.died < s.cells[l].life.died)
  }

  /** What the link of a node, live or dead, tells about the live nodes: nil means that nothing known to
      it lies ahead, a self link (of a dead node) that everything known to it lies ahead, and any other
      link leads over a gap in which no live node stands, to a node that outlives this one. */
  ghost predicate Guides(s: State, n: Node, desc: bool)
    requires n in s.cells
  {
    var l := Link(s, n, desc);
    if l == null then
      forall x | x in s.cells :: Known(s, x, n) && x != n ==> Key(s, x, desc) < Key(s, n, desc)
    else if l == n then
      && !Live(s, n)
      && forall x | x in s.cells :: Known(s, x, n) ==> Key(s, n, desc) < Key(s, x, desc)
    else
      && l in s.cells
      && Key(s, n, desc) < Key(s, l, desc)
      && Outlives(s, l, n)
      && forall x | x in s.cells :: Live(s, x) && x != l ==>
           Key(s, x, desc) <= Key(s, n, desc) || Key(s, l, desc) < Key(s, x, desc)
  }

  ghost predicate Inv(s: State) {
    && Counted(s)
    && Listed(s)
    && Dated(s)
    && (forall n, desc {:trigger Guides(s, n, desc)} | n in s.cells :: Guides(s, n, desc))
  }

  // ---- The pointer operations --------------------------------------------------------------------

  ghost function Empty(capacity: nat): State {
    State(null, null, 0, capacity, map[], [], 0, 0, 0)
  }

  /** `x` put at the back or at the front of a sequence. */
  ghost function Put<T>(q: seq<T>, x: T, back: bool): (r: seq<T>)
    ensures |r| == |q| + 1
    ensures forall k | 0 <= k < |q| :: r[if back then k else k + 1] == q[k]
    ensures r[if back then |q| else 0] == x
  {
    if back then q + [x] else [x] + q
  }

  /** `linkFirst` on a deque that has room: `x` is the fresh node. */
  ghost function PushFirst(s: State, x: Node, e: Item): State
    requires Inv(s)
  {
    var c := s.cells[x := Cell(Some(e), null, s.first, Life(s.lo - 1, s.clock + 1, 0, e))];
    s.(first := x,
       last := if s.last == null then x else s.last,
       cells := if s.last == null then c else c[s.first := c[s.first].(prev := x)],
       count := s.count + 1,
       order := Put(s.order, x, false), lo := s.lo - 1, clock := s.clock + 1)
  }

  /** `linkLast` on a deque that has room. */
  ghost function PushLast(s: State, x: Node, e: Item): State
    requires Inv(s)
  {
    var c := s.cells[x := Cell(Some(e), s.last, null, Life(s.hi + 1, s.clock + 1, 0, e))];
    s.(last := x,
       first := if s.first == null then x else s.first,
       cells := if s.first == null then c else c[s.last := c[s.last].(next := x)],
       count := s.count + 1,
       order := Put(s.order, x, true), hi := s.hi + 1, clock := s.clock + 1)
  }

  ghost function Without<T>(q: seq<T>, i: nat): (r: seq<T>)
    requires i < |q|
    ensures |r| == |q| - 1
    ensures forall k | 0 <= k < |r| :: r[k] == q[if k < i then k else k + 1]
  {
    seq(|q| - 1, k requires 0 <= k < |q| - 1 => q[if k < i then k else k + 1])
  }

  /** A node loses its item and its time of death is noted. */
  ghost function Buried(c: Cell, now: nat): Cell {
    c.(item := None, life := c.life.(died := now))
  }

  /** `unlinkFirst` on a non-empty deque: the removed node's `next` is turned into a self link. */
  ghost function PopFirst(s: State): State
    requires Inv(s) && s.order != []
  {
    var f := s.order[0];
    assert Guides(s, f, false);
    var n := s.cells[f].next;
    var c := s.cells[f := Buried(s.cells[f], s.clock + 1).(next := f)];
    s.(first := n,
       last := if n == null then null else s.last,
       cells := if n == null then c else c[n := c[n].(prev := null)],
       count := s.count - 1, order := Without(s.order, 0), clock := s.clock + 1)
  }

  /** `unlinkLast` on a non-empty deque: the removed node's `prev` is turned into a self link. */
  ghost function PopLast(s: State): State
    requires Inv(s) && s.order != []
  {
    var l := s.order[|s.order| - 1];
    assert Guides(s, l, true);
    var p := s.cells[l].prev;
    var c := s.cells[l := Buried(s.cells[l], s.clock + 1).(prev := l)];
    s.(last := p,
       first := if p == null then null else s.first,
       cells := if p == null then c else c[p := c[p].(next := null)],
       count := s.count - 1, order := Without(s.order, |s.order| - 1), clock := s.clock + 1)
  }

  /** The third branch of `unlink`: an interior node keeps its links. */
  ghost function UnlinkInterior(s: State, i: nat): State
    requires Inv(s) && i < |s.order|
    requires s.cells[s.order[i]].prev != null && s.cells[s.order[i]].next != null
  {
    var x := s.order[i];
    assert Guides(s, x, false) && Guides(s, x, true);
    var p, n := s.cells[x].prev, s.cells[x].next;
    var c := s.cells[p := s.cells[p].(next := n)];
    var c := c[n := c[n].(prev := p)];
    s.(cells := c[x := Buried(c[x], s.clock + 1)],
       count := s.count - 1, order := Without(s.order, i), clock := s.clock + 1)
  }

  /** `unlink` of the live node at place `i`. */
  ghost function Unlink(s: State, i: nat): State
    requires Inv(s) && i < |s.order|
  {
    if s.cells[s.order[i]].prev == null then PopFirst(s)
    else if s.cells[s.order[i]].next == null then PopLast(s)
    else UnlinkInterior(s, i)
  }

  // ---- Every operation keeps the invariant -------------------------------------------------------

  lemma EmptyInv(capacity: nat)
    ensures Inv(Empty(capacity)) && Items(Empty(capacity)) == []
  {
  }

  /** The node next to place `i` in the direction of travel. */
  ghost function Neighbour(s: State, i: nat, desc: bool): Node?
    requires i < |s.order|
  {
    if desc then if i == 0 then null else s.order[i - 1]
    else if i + 1 == |s.order| then null else s.order[i + 1]
  }

  /** Neighbours in the order are linked to each other, and the end links are nil. */
  lemma Adjacent(s: State, i: nat, desc: bool)
    requires Inv(s) && i < |s.order|
    ensures Link(s, s.order[i], desc) == Neighbour(s, i, desc)
  {
    var x := s.order[i];
    assert Guides(s, x, desc);
    var n := Link(s, x, desc);
    if n != null {
      var j :| 0 <= j < |s.order| && s.order[j] == n;
    }
  }

  /** The live nodes lie between the ends. */
  lemma Ends(s: State, x: Node)
    requires Listed(s) && Live(s, x)
    ensures s.order[0] == x || s.cells[s.order[0]].life.pos < s.cells[x].life.pos
    ensures s.order[|s.order| - 1] == x || s.cells[x].life.pos < s.cells[s.order[|s.order| - 1]].life.pos
  {
    var j :| 0 <= j < |s.order| && s.order[j] == x;
  }

  lemma EndsLinked(s: State)
    requires Inv(s)
    ensures s.first == null <==> s.order == []
    ensures s.last == null <==> s.order == []
    ensures s.order != [] ==> s.first in s.cells && s.last in s.cells
  {
  }

  lemma NodeItem(s: State, i: nat)
    requires Inv(s) && i < |s.order|
    ensures s.order[i] in s.cells && s.cells[s.order[i]].item == Some(Items(s)[i])
  {
    assert Live(s, s.order[i]);
  }

  lemma EndPlaces(s: State)
    requires Inv(s)
    ensures s.first == if s.order == [] then null else s.order[0]
    ensures s.last == if s.order == [] then null else s.order[|s.order| - 1]
    ensures s.count == |s.order|
  {
  }

  lemma FirstItem(s: State)
    requires Inv(s) && s.order != []
    ensures s.first == s.order[0] && s.order[0] in s.cells && s.cells[s.order[0]].item == Some(Items(s)[0])
  {
  }

  lemma LastItem(s: State)
    requires Inv(s) && s.order != []
    ensures s.last == s.order[|s.order| - 1] && s.last in s.cells
    ensures s.cells[s.last].item == Some(Items(s)[|s.order| - 1])
  {
  }

  // Removal

  /** `t` differs from `s` by the death of `y` and, possibly, by links. */
  ghost predicate Lost(s: State, t: State, y: Node)
    requires y in s.cells
  {
    && t.cells.Keys == s.cells.Keys
    && t.clock == s.clock + 1
    && (forall n | n in s.cells && n != y :: t.cells[n].item == s.cells[n].item && t.cells[n].life == s.cells[n].life)
    && t.cells[y].item == None && t.cells[y].life == s.cells[y].life.(died := s.clock + 1)
  }

  /** A removal joins the neighbours of the removed node; the node's own links stay, except that the link
      back into the deque of an end node becomes a self link. */
  ghost predicate Bypassed(s: State, t: State, i: nat)
    requires i < |s.order| && s.order[i] in s.cells && t.cells.Keys == s.cells.Keys
  {
    var x := s.order[i];
    && (forall n, desc | n in s.cells && n != x ::
          Link(t, n, desc) == if n == Neighbour(s, i, !desc) then Neighbour(s, i, desc) else Link(s, n, desc))
    && (forall desc ::
          Link(t, x, desc) == Link(s, x, desc) || (Link(t, x, desc) == x && Neighbour(s, i, !desc) == null))
  }

  lemma RemovalLeavesLive(s: State, t: State, i: nat)
    requires Listed(s) && i < |s.order| && Lost(s, t, s.order[i])
    requires t.order == Without(s.order, i)
    ensures forall k | 0 <= k < |t.order| :: Live(t, t.order[k])
  {
    forall k | 0 <= k < |t.order| ensures Live(t, t.order[k]) {
      assert Live(s, s.order[if k < i then k else k + 1]);
    }
  }

  lemma RemovalListed(s: State, t: State, i: nat)
    requires Listed(s) && i < |s.order| && Lost(s, t, s.order[i])
    requires t.order == Without(s.order, i)
    requires forall k | 0 <= k < |t.order| :: Live(t, t.order[k])
    ensures Listed(t)
  {
    forall n | n in t.cells && Live(t, n) ensures n in t.order {
      var j :| 0 <= j < |s.order| && s.order[j] == n;
      assert n == t.order[if j < i then j else j - 1];
    }
  }

  lemma RemovalDated(s: State, t: State, x: Node)
    requires Dated(s) && x in s.cells && Live(s, x) && Lost(s, t, x) && t.lo == s.lo && t.hi == s.hi
    ensures Dated(t)
  {
  }

  /** Only its neighbours link to a live node. */
  lemma OnlyNeighboursLink(s: State, i: nat, n: Node, desc: bool)
    requires Inv(s) && i < |s.order| && Live(s, n) && Link(s, n, desc) == s.order[i]
    ensures n == Neighbour(s, i, !desc)
  {
    var j :| 0 <= j < |s.order| && s.order[j] == n;
    Adjacent(s, j, desc);
  }

  /** A link that a removal leaves alone still guides. */
  lemma KeptLinkGuides(s: State, t: State, i: nat, n: Node, desc: bool)
    requires i < |s.order| && s.order[i] in s.cells && Live(s, s.order[i]) && Dated(s) && Lost(s, t, s.order[i])
    requires n in s.cells && Link(t, n, desc) == Link(s, n, desc) && Guides(s, n, desc)
    requires Live(s, n) ==> Link(s, n, desc) != s.order[i]
    ensures Guides(t, n, desc)
  {
  }

  /** Apart from the node at place `i`, no live node stands between its neighbours. */
  lemma Between(s: State, i: nat, y: Node, desc: bool)
    requires Listed(s) && i < |s.order| && Live(s, y) && y != s.order[i]
    ensures var p, n := Neighbour(s, i, !desc), Neighbour(s, i, desc);
            || (p != null && Key(s, y, desc) <= Key(s, p, desc))
            || (n != null && (y == n || Key(s, n, desc) < Key(s, y, desc)))
  {
    var j :| 0 <= j < |s.order| && s.order[j] == y;
  }

  lemma Along(s: State, i: nat, desc: bool)
    requires Listed(s) && i < |s.order|
    ensures var n := Neighbour(s, i, desc); n != null ==> Live(s, n) && Key(s, s.order[i], desc) < Key(s, n, desc)
    ensures var p := Neighbour(s, i, !desc); p != null ==> Live(s, p) && Key(s, p, desc) < Key(s, s.order[i], desc)
  {
  }

  /** The neighbour whose link was bridged over the removed node. */
  lemma BridgeGuides(s: State, t: State, i: nat, n: Node, desc: bool)
    requires Listed(s) && i < |s.order| && Lost(s, t, s.order[i])
    requires n == Neighbour(s, i, !desc) && Link(t, n, desc) == Neighbour(s, i, desc)
    ensures Guides(t, n, desc)
  {
    Along(s, i, desc);
    forall y | y in t.cells && Live(t, y)
      ensures || Key(s, y, desc) <= Key(s, n, desc)
              || (Link(t, n, desc) != null
                  && (y == Link(t, n, desc) || Key(s, Link(t, n, desc), desc) < Key(s, y, desc)))
    {
      Between(s, i, y, desc);
    }
    forall y | y in t.cells && Live(t, y) && y != n ensures Key(s, y, desc) != Key(s, n, desc) {
      SamePlace(s, y, n);
    }
  }

  lemma SamePlace(s: State, x: Node, y: Node)
    requires Listed(s) && Live(s, x) && Live(s, y)
    ensures s.cells[x].life.pos == s.cells[y].life.pos ==> x == y
  {
    var i :| 0 <= i < |s.order| && s.order[i] == x;
    var j :| 0 <= j < |s.order| && s.order[j] == y;
  }

  /** An end node that was turned into a self link. */
  lemma SelfLinkGuides(s: State, t: State, i: nat, desc: bool)
    requires Inv(s) && i < |s.order| && Lost(s, t, s.order[i])
    requires Neighbour(s, i, !desc) == null && Link(t, s.order[i], desc) == s.order[i]
    ensures Guides(t, s.order[i], desc)
  {
    forall y | y in t.cells && Live(t, y) ensures Key(t, s.order[i], desc) < Key(t, y, desc) {
      Ends(s, y);
    }
  }

  lemma RemovalGuides(s: State, t: State, i: nat)
    requires Inv(s) && i < |s.order| && Lost(s, t, s.order[i]) && Bypassed(s, t, i)
    ensures forall n, desc {:trigger Guides(t, n, desc)} | n in t.cells :: Guides(t, n, desc)
  {
    forall n, desc | n in t.cells ensures Guides(t, n, desc) {
      if n == Neighbour(s, i, !desc) {
        BridgeGuides(s, t, i, n, desc);
      } else if n == s.order[i] && Link(t, n, desc) == n {
        assert Guides(s, n, desc);
        SelfLinkGuides(s, t, i, desc);
      } else {
        assert Guides(s, n, desc);
        if Live(s, n) && Link(s, n, desc) == s.order[i] { OnlyNeighboursLink(s, i, n, desc); }
        KeptLinkGuides(s, t, i, n, desc);
      }
    }
  }

  lemma BothAdjacent(s: State, i: nat)
    requires Inv(s) && i < |s.order|
    ensures s.order[i] in s.cells
    ensures s.cells[s.order[i]].next == Neighbour(s, i, false)
    ensures s.cells[s.order[i]].prev == Neighbour(s, i, true)
    ensures forall desc | Neighbour(s, i, desc) != null :: Neighbour(s, i, desc) in s.cells
  {
    Adjacent(s, i, false);
    Adjacent(s, i, true);
  }

  /** The neighbours of a node are two others. */
  lemma Apart(s: State, i: nat)
    requires Inv(s) && i < |s.order| && s.order[i] in s.cells
    ensures var x := s.order[i];
            var p, n := s.cells[x].prev, s.cells[x].next;
            && (p != null ==> p in s.cells && p != x) && (n != null ==> n in s.cells && n != x)
            && (p != null ==> p != n)
  {
    BothAdjacent(s, i);
  }

  /** `t` has the cells of `s`, all alike except for those of `x`, `y` and `z`. */
  ghost predicate AlikeExcept(s: State, t: State, x: Node?, y: Node?, z: Node?) {
    && t.cells.Keys == s.cells.Keys
    && forall n | n in s.cells && n != x && n != y && n != z :: t.cells[n] == s.cells[n]
  }

  lemma PopFirstCells(s: State)
    requires Inv(s) && s.order != []
    ensures s.first != null && s.first in s.cells
    ensures var t, f := PopFirst(s), s.first;
            var n := s.cells[f].next;
            && AlikeExcept(s, t, f, n, null)
            && t.first == n && t.last == (if n == null then null else s.last)
            && t.count == s.count - 1 && t.capacity == s.capacity
            && t.cells[f].item == None && t.cells[f].prev == s.cells[f].prev && t.cells[f].next == f
            && (n != null ==>
                  && n in s.cells && n != f
                  && t.cells[n].item == s.cells[n].item && t.cells[n].prev == null
                  && t.cells[n].next == s.cells[n].next)
  {
    Apart(s, 0);
  }

  lemma PopLastCells(s: State)
    requires Inv(s) && s.order != []
    ensures s.last != null && s.last in s.cells
    ensures var t, l := PopLast(s), s.last;
            var p := s.cells[l].prev;
            && AlikeExcept(s, t, l, p, null)
            && t.last == p && t.first == (if p == null then null else s.first)
            && t.count == s.count - 1 && t.capacity == s.capacity
            && t.cells[l].item == None && t.cells[l].prev == l && t.cells[l].next == s.cells[l].next
            && (p != null ==>
                  && p in s.cells && p != l
                  && t.cells[p].item == s.cells[p].item && t.cells[p].prev == s.cells[p].prev
                  && t.cells[p].next == null)
  {
    Apart(s, |s.order| - 1);
  }

  lemma UnlinkInteriorCells(s: State, i: nat)
    requires Inv(s) && i < |s.order| && s.order[i] in s.cells
    requires s.cells[s.order[i]].prev != null && s.cells[s.order[i]].next != null
    ensures var t, x := UnlinkInterior(s, i), s.order[i];
            var p, n := s.cells[x].prev, s.cells[x].next;
            && p in s.cells && n in s.cells && p != x && n != x && p != n
            && AlikeExcept(s, t, x, p, n)
            && t.first == s.first && t.last == s.last && t.count == s.count - 1 && t.capacity == s.capacity
            && t.cells[x].item == None && t.cells[x].prev == p && t.cells[x].next == n
            && t.cells[p].item == s.cells[p].item && t.cells[p].prev == s.cells[p].prev && t.cells[p].next == n
            && t.cells[n].item == s.cells[n].item && t.cells[n].prev == p && t.cells[n].next == s.cells[n].next
  {
    Apart(s, i);
  }

  /** The whole effect of a removal at place `i`. */
  ghost predicate Removed(s: State, t: State, i: nat)
    requires Inv(s) && i < |s.order|
  {
    && Lost(s, t, s.order[i]) && Bypassed(s, t, i)
    && t.order == Without(s.order, i) && t.count == s.count - 1
    && t.capacity == s.capacity && t.lo == s.lo && t.hi == s.hi
    && t.first == (if t.order == [] then null else t.order[0])
    && t.last == (if t.order == [] then null else t.order[|t.order| - 1])
  }

  lemma PopFirstEffect(s: State)
    requires Inv(s) && s.order != []
    ensures Removed(s, PopFirst(s), 0)
  {
    hide Inv, Guides, Listed, Counted, Dated;
    BothAdjacent(s, 0);
    EndPlaces(s);
    if 1 < |s.order| { SecondPlaces(s); }
  }

  lemma PopLastEffect(s: State)
    requires Inv(s) && s.order != []
    ensures Removed(s, PopLast(s), |s.order| - 1)
  {
    hide Inv, Guides, Listed, Counted, Dated;
    BothAdjacent(s, |s.order| - 1);
    EndPlaces(s);
    if 1 < |s.order| { SecondPlaces(s); }
  }

  /** The nodes next to the ends. */
  lemma SecondPlaces(s: State)
    requires Inv(s) && 1 < |s.order|
    ensures s.order[0] in s.cells && s.order[1] in s.cells && s.order[0] != s.order[1]
    ensures s.cells[s.order[1]].prev == s.order[0] && s.cells[s.order[0]].next == s.order[1]
    ensures var n := |s.order| - 1;
            && s.order[n] in s.cells && s.order[n - 1] in s.cells && s.order[n] != s.order[n - 1]
            && s.cells[s.order[n - 1]].next == s.order[n] && s.cells[s.order[n]].prev == s.order[n - 1]
  {
    BothAdjacent(s, 0);
    BothAdjacent(s, 1);
    BothAdjacent(s, |s.order| - 1);
    BothAdjacent(s, |s.order| - 2);
  }

  lemma UnlinkInteriorLost(s: State, i: nat)
    requires Inv(s) && 0 < i < |s.order| - 1
    requires s.cells[s.order[i]].prev == s.order[i - 1] && s.cells[s.order[i]].next == s.order[i + 1]
    ensures Lost(s, UnlinkInterior(s, i), s.order[i])
  {
    assert s.order[i - 1] != s.order[i] && s.order[i + 1] != s.order[i];
  }

  lemma UnlinkInteriorBypassed(s: State, i: nat)
    requires Inv(s) && 0 < i < |s.order| - 1
    requires s.cells[s.order[i]].prev == s.order[i - 1] && s.cells[s.order[i]].next == s.order[i + 1]
    requires Lost(s, UnlinkInterior(s, i), s.order[i])
    ensures Bypassed(s, UnlinkInterior(s, i), i)
  {
    var p, x, n := s.order[i - 1], s.order[i], s.order[i + 1];
    assert p != x && n != x && p != n;
  }

  lemma RemovedInv(s: State, t: State, i: nat)
    requires Inv(s) && i < |s.order| && Removed(s, t, i)
    ensures Inv(t)
  {
    RemovalLeavesLive(s, t, i);
    RemovalListed(s, t, i);
    RemovalDated(s, t, s.order[i]);
    RemovalGuides(s, t, i);
  }

  lemma RemovedItems(s: State, t: State, i: nat)
    requires Listed(s) && Listed(t) && i < |s.order| && Lost(s, t, s.order[i]) && t.order == Without(s.order, i)
    ensures Items(t) == Without(Items(s), i)
  {
  }

  lemma UnlinkInteriorEffect(s: State, i: nat)
    requires Inv(s) && 0 < i < |s.order| - 1
    requires s.cells[s.order[i]].prev == s.order[i - 1] && s.cells[s.order[i]].next == s.order[i + 1]
    ensures Removed(s, UnlinkInterior(s, i), i)
  {
    hide Lost, Bypassed, Listed, Dated, Guides;
    UnlinkInteriorLost(s, i);
    UnlinkInteriorBypassed(s, i);
  }

  lemma UnlinkEffect(s: State, i: nat)
    requires Inv(s) && i < |s.order|
    ensures Removed(s, Unlink(s, i), i)
  {
    hide Guides, Removed;
    BothAdjacent(s, i);
    if i == 0 {
      PopFirstEffect(s);
    } else if i == |s.order| - 1 {
      PopLastEffect(s);
    } else {
      UnlinkInteriorEffect(s, i);
    }
  }

  /** `unlink` removes exactly the node at place `i`, whichever of its three branches it takes. */
  lemma UnlinkInv(s: State, i: nat)
    requires Inv(s) && i < |s.order|
    ensures Inv(Unlink(s, i)) && Removed(s, Unlink(s, i), i)
    ensures Items(Unlink(s, i)) == Without(Items(s), i)
  {
    UnlinkEffect(s, i);
    RemovedInv(s, Unlink(s, i), i);
    RemovedItems(s, Unlink(s, i), i);
  }

  /** `unlinkFirst` pops the front, `unlinkLast` the back. */
  lemma PopInv(s: State)
    requires Inv(s) && s.order != []
    ensures Inv(PopFirst(s)) && Removed(s, PopFirst(s), 0)
    ensures Items(PopFirst(s)) == Without(Items(s), 0)
    ensures Inv(PopLast(s)) && Removed(s, PopLast(s), |s.order| - 1)
    ensures Items(PopLast(s)) == Without(Items(s), |s.order| - 1)
  {
    hide Listed, Dated, Guides, Lost, Bypassed;
    PopFirstEffect(s);
    RemovedInv(s, PopFirst(s), 0);
    RemovedItems(s, PopFirst(s), 0);
    PopLastEffect(s);
    RemovedInv(s, PopLast(s), |s.order| - 1);
    RemovedItems(s, PopLast(s), |s.order| - 1);
  }

  // Insertion

  /** `t` differs from `s` by the birth of `x` and, possibly, by links. */
  ghost predicate Gained(s: State, t: State, x: Node, e: Item) {
    && x !in s.cells && t.cells.Keys == s.cells.Keys + {x}
    && t.clock == s.clock + 1
    && (forall n | n in s.cells :: t.cells[n].item == s.cells[n].item && t.cells[n].life == s.cells[n].life)
    && t.cells[x].item == Some(e) && t.cells[x].life.value == e && t.cells[x].life.born == s.clock + 1
  }

  /** `x` was put before everything ever linked in the direction of travel, and linked to the former start. */
  ghost predicate PutAtStart(s: State, t: State, x: Node, desc: bool)
    requires x !in s.cells && t.cells.Keys == s.cells.Keys + {x}
  {
    && Key(t, x, desc) == (if desc then -s.hi else s.lo) - 1
    && t.lo == (if desc then s.lo else s.lo - 1) && t.hi == (if desc then s.hi + 1 else s.hi)
    && Link(t, x, desc) == Start(s, desc) && Link(t, x, !desc) == null
    && (forall n | n in s.cells :: Link(t, n, desc) == Link(s, n, desc))
    && (forall n | n in s.cells :: Link(t, n, !desc) == if n == Start(s, desc) then x else Link(s, n, !desc))
  }

  /** The whole effect of an insertion at the start in the direction of travel. */
  ghost predicate Inserted(s: State, t: State, x: Node, e: Item, desc: bool) {
    && Gained(s, t, x, e) && PutAtStart(s, t, x, desc)
    && t.order == Put(s.order, x, desc)
    && t.count == s.count + 1 <= t.capacity == s.capacity
    && t.first == (if desc && s.order != [] then s.first else x)
    && t.last == (if desc || s.order == [] then x else s.last)
  }

  lemma StartIsLeast(s: State, desc: bool)
    requires Counted(s) && Listed(s) && s.order != []
    ensures Live(s, Start(s, desc))
    ensures forall y | y in s.cells && Live(s, y) && y != Start(s, desc) ::
              Key(s, Start(s, desc), desc) < Key(s, y, desc)
  {
    forall y | y in s.cells && Live(s, y) && y != Start(s, desc)
      ensures Key(s, Start(s, desc), desc) < Key(s, y, desc)
    {
      Ends(s, y);
    }
  }

  lemma OnlyStartHasNoWayBack(s: State, n: Node, at: bool)
    requires Inv(s) && Live(s, n) && Link(s, n, !at) == null
    ensures n == Start(s, at)
  {
    assert Guides(s, n, !at);
    StartIsLeast(s, at);
  }

  lemma OldLinkGuides(s: State, t: State, x: Node, e: Item, at: bool, n: Node, desc: bool)
    requires Dated(s) && Gained(s, t, x, e) && PutAtStart(s, t, x, at)
    requires n in s.cells && Guides(s, n, desc) && Link(t, n, desc) == Link(s, n, desc)
    requires Live(s, n) && Link(s, n, desc) == null ==> desc == at
    ensures Guides(t, n, desc)
  {
  }

  lemma NewLinkGuides(s: State, t: State, x: Node, e: Item, at: bool, n: Node, desc: bool)
    requires Counted(s) && Listed(s) && Dated(s) && Gained(s, t, x, e) && PutAtStart(s, t, x, at)
    requires n == x || (desc != at && n == Start(s, at))
    ensures Guides(t, n, desc)
  {
    if s.order != [] { StartIsLeast(s, at); }
  }

  lemma InsertionGuides(s: State, t: State, x: Node, e: Item, at: bool)
    requires Inv(s) && Gained(s, t, x, e) && PutAtStart(s, t, x, at)
    ensures forall n, desc {:trigger Guides(t, n, desc)} | n in t.cells :: Guides(t, n, desc)
  {
    forall n, desc | n in t.cells ensures Guides(t, n, desc) {
      if n == x || (desc != at && n == Start(s, at)) {
        NewLinkGuides(s, t, x, e, at, n, desc);
      } else {
        assert Guides(s, n, desc);
        if Live(s, n) && Link(s, n, desc) == null && desc != at { OnlyStartHasNoWayBack(s, n, at); }
        OldLinkGuides(s, t, x, e, at, n, desc);
      }
    }
  }

  lemma InsertionKeepsLive(s: State, t: State, x: Node, e: Item, at: bool)
    requires Listed(s) && Gained(s, t, x, e) && t.order == Put(s.order, x, at)
    ensures forall i | 0 <= i < |t.order| :: Live(t, t.order[i])
  {
    forall i | 0 <= i < |t.order| ensures Live(t, t.order[i]) {
      var j := if at then i else i - 1;
      if 0 <= j < |s.order| { assert Live(s, s.order[j]); }
    }
  }

  lemma InsertionSorted(s: State, t: State, x: Node, e: Item, at: bool, i: nat, j: nat)
    requires Listed(s) && Dated(s) && Gained(s, t, x, e) && PutAtStart(s, t, x, at)
    requires |t.order| == |s.order| + 1
    requires at ==> t.order[|s.order|] == x && forall k | 0 <= k < |s.order| :: t.order[k] == s.order[k]
    requires !at ==> t.order[0] == x && forall k | 0 < k < |t.order| :: t.order[k] == s.order[k - 1]
    requires i < j < |t.order| && t.order[i] in t.cells && t.order[j] in t.cells
    ensures t.cells[t.order[i]].life.pos < t.cells[t.order[j]].life.pos
  {
    if at && j == |s.order| {
      ExtremeKey(s, t, x, e, at, s.order[i]);
    } else if !at && i == 0 {
      ExtremeKey(s, t, x, e, at, s.order[j - 1]);
    }
  }

  lemma ExtremeKey(s: State, t: State, x: Node, e: Item, at: bool, n: Node)
    requires Dated(s) && Gained(s, t, x, e) && PutAtStart(s, t, x, at) && n in s.cells
    ensures Key(t, x, at) < Key(t, n, at)
  {
  }

  lemma InsertionComplete(s: State, t: State, x: Node, e: Item, at: bool)
    requires (forall n | n in s.cells :: Live(s, n) ==> n in s.order)
    requires Gained(s, t, x, e) && t.order == Put(s.order, x, at)
    ensures forall n | n in t.cells :: Live(t, n) ==> n in t.order
  {
    forall n | n in t.cells && Live(t, n) ensures n in t.order {
      if n != x {
        var j :| 0 <= j < |s.order| && s.order[j] == n;
        assert t.order[if at then j else j + 1] == n;
      }
    }
  }

  lemma InsertionDated(s: State, t: State, x: Node, e: Item, at: bool)
    requires Dated(s) && Gained(s, t, x, e) && PutAtStart(s, t, x, at)
    ensures Dated(t)
  {
  }

  lemma LiveInCells(s: State)
    requires forall k | 0 <= k < |s.order| :: Live(s, s.order[k])
    ensures InCells(s)
  {
  }

  lemma InsertionListed(s: State, t: State, x: Node, e: Item, at: bool)
    requires Listed(s) && Dated(s) && Gained(s, t, x, e) && PutAtStart(s, t, x, at) && t.order == Put(s.order, x, at)
    ensures Listed(t)
  {
    hide Gained, PutAtStart, Dated, Live;
    InsertionKeepsLive(s, t, x, e, at);
    InsertionComplete(s, t, x, e, at);
    LiveInCells(t);
    forall i, j | 0 <= i < j < |t.order| ensures t.cells[t.order[i]].life.pos < t.cells[t.order[j]].life.pos {
      InsertionSorted(s, t, x, e, at, i, j);
    }
  }

  lemma InsertedInv(s: State, t: State, x: Node, e: Item, at: bool)
    requires Inv(s) && Inserted(s, t, x, e, at)
    ensures Inv(t)
  {
    hide Listed, Dated, Guides, Gained, PutAtStart;
    InsertionListed(s, t, x, e, at);
    InsertionDated(s, t, x, e, at);
    InsertionGuides(s, t, x, e, at);
  }

  lemma FrontItems(s: State, t: State, x: Node, e: Item)
    requires InCells(s) && InCells(t) && Gained(s, t, x, e) && t.order == [x] + s.order
    ensures Items(t) == [e] + Items(s)
  {
    forall k | 0 <= k < |t.order| ensures Items(t)[k] == if k == 0 then e else Items(s)[k - 1] {
      if 0 < k { assert t.order[k] == s.order[k - 1]; }
    }
  }

  lemma BackItems(s: State, t: State, x: Node, e: Item)
    requires InCells(s) && InCells(t) && Gained(s, t, x, e) && t.order == s.order + [x]
    ensures Items(t) == Items(s) + [e]
  {
    forall k | 0 <= k < |t.order| ensures Items(t)[k] == if k == |s.order| then e else Items(s)[k] {
      if k < |s.order| { assert t.order[k] == s.order[k]; }
    }
  }

  lemma PushFirstEffect(s: State, x: Node, e: Item)
    requires Inv(s) && x !in s.cells && s.count < s.capacity
    ensures Inserted(s, PushFirst(s, x, e), x, e, false)
  {
    if s.order != [] { BothAdjacent(s, 0); }
  }

  lemma PushLastEffect(s: State, x: Node, e: Item)
    requires Inv(s) && x !in s.cells && s.count < s.capacity
    ensures Inserted(s, PushLast(s, x, e), x, e, true)
  {
    if s.order != [] { BothAdjacent(s, |s.order| - 1); }
  }

  lemma PushFirstInv(s: State, x: Node, e: Item)
    requires Inv(s) && x !in s.cells && s.count < s.capacity
    ensures var t := PushFirst(s, x, e); Inv(t) && Inserted(s, t, x, e, false) && Items(t) == [e] + Items(s)
  {
    PushFirstEffect(s, x, e);
    InsertedInv(s, PushFirst(s, x, e), x, e, false);
    FrontItems(s, PushFirst(s, x, e), x, e);
  }

  lemma PushLastInv(s: State, x: Node, e: Item)
    requires Inv(s) && x !in s.cells && s.count < s.capacity
    ensures var t := PushLast(s, x, e); Inv(t) && Inserted(s, t, x, e, true) && Items(t) == Items(s) + [e]
  {
    PushLastEffect(s, x, e);
    InsertedInv(s, PushLast(s, x, e), x, e, true);
    BackItems(s, PushLast(s, x, e), x, e);
  }

  lemma PushFirstCells(s: State, x: Node, e: Item)
    requires Inv(s) && x !in s.cells && s.count < s.capacity
    ensures (s.first == null <==> s.last == null) && (s.first != null ==> s.first in s.cells)
    ensures var t, f := PushFirst(s, x, e), s.first;
            && t.cells.Keys == s.cells.Keys + {x}
            && (forall n | n in s.cells && n != f :: t.cells[n] == s.cells[n])
            && t.first == x && t.last == (if s.last == null then x else s.last)
            && t.count == s.count + 1 && t.capacity == s.capacity
            && t.cells[x].item == Some(e) && t.cells[x].prev == null && t.cells[x].next == f
            && (f != null ==>
                  t.cells[f].item == s.cells[f].item && t.cells[f].prev == x && t.cells[f].next == s.cells[f].next)
  {
  }

  lemma PushLastCells(s: State, x: Node, e: Item)
    requires Inv(s) && x !in s.cells && s.count < s.capacity
    ensures (s.first == null <==> s.last == null) && (s.last != null ==> s.last in s.cells)
    ensures var t, l := PushLast(s, x, e), s.last;
            && t.cells.Keys == s.cells.Keys + {x}
            && (forall n | n in s.cells && n != l :: t.cells[n] == s.cells[n])
            && t.last == x && t.first == (if s.first == null then x else s.first)
            && t.count == s.count + 1 && t.capacity == s.capacity
            && t.cells[x].item == Some(e) && t.cells[x].prev == l && t.cells[x].next == null
            && (l != null ==>
                  t.cells[l].item == s.cells[l].item && t.cells[l].prev == s.cells[l].prev && t.cells[l].next == x)
  {
  }
}
