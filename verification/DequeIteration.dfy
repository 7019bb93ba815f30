/**
 Iterators over the linked deque, and what they promise when the deque changes under them: they are
 weakly consistent. `since` and `returned` record when an iterator was made and what it has returned.
 */
module DequeIteration {
  import opened Wrappers
  import opened DequeModel

  datatype Iter = Iter(next: Node?, nextItem: Option<Item>, lastRet: Node?, desc: bool, returned: seq<Node>, since: nat)

  ghost function ItemOf(s: State, n: Node?): Option<Item>
    requires n == null || n in s.cells
  {
    if n == null then None else s.cells[n].item
  }

  ghost function NewIter(s: State, desc: bool): Iter
    requires Inv(s)
  {
    var n := Start(s, desc);
    Iter(n, ItemOf(s, n), null, desc, [], s.clock)
  }

  /** The node an iterator moves to from `n`, which may be dead: links of dead nodes are followed until
      they run out, reach a live node, or come back on themselves, which means to start over. */
  ghost function Succ(s: State, n: Node, desc: bool): Node?
    requires Inv(s) && n in s.cells
    decreases KeyBound(s, desc) - Key(s, n, desc)
  {
    assert Guides(s, n, desc);
    var l := Link(s, n, desc);
    if l == null then null
    else if s.cells[l].item.Some? then l
    else if l == n then Start(s, desc)
    else Succ(s, l, desc)
  }

  /** `Succ` lands on a live node or nowhere; it passes over nothing that `n` knew to be ahead, and what
      `n` knew not to be ahead stays behind. */
  lemma SuccGuides(s: State, n: Node, desc: bool)
    requires Inv(s) && n in s.cells
    ensures var r := Succ(s, n, desc);
            && (r != null ==> Live(s, r))
            && (forall x | x in s.cells :: Known(s, x, n) && Key(s, n, desc) < Key(s, x, desc) ==>
                  r != null && (x == r || Key(s, r, desc) < Key(s, x, desc)))
            && (forall x | x in s.cells :: Known(s, x, n) && Key(s, x, desc) <= Key(s, n, desc) ==>
                  r == null || Key(s, x, desc) < Key(s, r, desc))
    decreases KeyBound(s, desc) - Key(s, n, desc)
  {
    assert Guides(s, n, desc);
    var l := Link(s, n, desc);
    if l != null && !Live(s, l) {
      if l == n {
        if s.order != [] { StartIsLeast(s, desc); }
      } else {
        SuccGuides(s, l, desc);
      }
    }
  }

  lemma LinkLeadsOn(s: State, n: Node, desc: bool)
    requires Inv(s) && n in s.cells
    ensures Key(s, n, desc) <= KeyBound(s, desc)
    ensures var l := Link(s, n, desc);
            l != null && l != n ==> l in s.cells && Key(s, n, desc) < Key(s, l, desc) <= KeyBound(s, desc)
  {
    assert Guides(s, n, desc);
  }

  // ---- One iterator step ---------------------------------------------------------------------------

  ghost function Advance(s: State, it: Iter): Iter
    requires Inv(s) && it.next != null && it.next in s.cells
  {
    SuccGuides(s, it.next, it.desc);
    var n := Succ(s, it.next, it.desc);
    it.(next := n, nextItem := ItemOf(s, n), lastRet := it.next, returned := it.returned + [it.next])
  }

  // ---- The iterator invariant ----------------------------------------------------------------------

  /** Nothing returned lies ahead of `n`, and all of it was linked while `n` was live. */
  ghost predicate Behind(s: State, it: Iter, n: Node)
    requires n in s.cells
  {
    && n !in it.returned
    && (forall x | x in it.returned :: x in s.cells)
    && (forall x | x in it.returned :: Live(s, x) ==> Known(s, x, n) && Key(s, x, it.desc) < Key(s, n, it.desc))
  }

  /** Every live node as old as the iterator was returned or lies at `n` or beyond. */
  ghost predicate Ahead(s: State, it: Iter, n: Node)
    requires n in s.cells
  {
    && (Live(s, n) || it.since < s.cells[n].life.died)
    && (forall x | x in s.cells :: Live(s, x) && s.cells[x].life.born <= it.since ==>
          x in it.returned || x == n || Key(s, n, it.desc) < Key(s, x, it.desc))
  }

  ghost predicate Traced(s: State, it: Iter) {
    && (forall x | x in it.returned :: x in s.cells)
    && (forall i, j | 0 <= i < j < |it.returned| :: it.returned[i] != it.returned[j])
    && (forall i, j | 0 <= i < j < |it.returned| ::
          Live(s, it.returned[i]) && Live(s, it.returned[j]) ==>
          Key(s, it.returned[i], it.desc) < Key(s, it.returned[j], it.desc))
    && (it.lastRet != null ==> it.lastRet in s.cells)
    && it.since <= s.clock
  }

  ghost predicate IterInv(s: State, it: Iter) {
    && Traced(s, it)
    && (it.next == null <==> it.nextItem == None)
    && (it.next == null ==>
          forall x | x in s.cells :: Live(s, x) && s.cells[x].life.born <= it.since ==> x in it.returned)
    && (it.next != null ==>
          && it.next in s.cells
          && it.nextItem == Some(s.cells[it.next].life.value)
          && Behind(s, it, it.next)
          && Ahead(s, it, it.next))
  }

  lemma NextLinked(s: State, it: Iter)
    requires IterInv(s, it)
    ensures it.next != null ==> it.next in s.cells && it.nextItem == Some(s.cells[it.next].life.value)
  {
  }

  lemma LastRetLinked(s: State, it: Iter)
    requires IterInv(s, it)
    ensures it.lastRet != null ==> it.lastRet in s.cells
  {
  }

  lemma NewIterInv(s: State, desc: bool)
    requires Inv(s)
    ensures IterInv(s, NewIter(s, desc))
  {
    if s.order != [] { StartIsLeast(s, desc); }
  }

  lemma AdvanceTraced(s: State, it: Iter)
    requires Inv(s) && IterInv(s, it) && it.next != null
    ensures Traced(s, Advance(s, it))
  {
  }

  lemma AdvanceInv(s: State, it: Iter)
    requires Inv(s) && IterInv(s, it) && it.next != null
    ensures IterInv(s, Advance(s, it))
  {
    AdvanceTraced(s, it);
    SuccGuides(s, it.next, it.desc);
    var n := it.next;
    forall x | x in s.cells && Live(s, x) && s.cells[x].life.born <= it.since && x !in it.returned && x != n
      ensures Known(s, x, n) && Key(s, n, it.desc) < Key(s, x, it.desc)
    {
    }
  }

  lemma RemovalKeepsIter(s: State, t: State, x: Node, it: Iter)
    requires Dated(s) && x in s.cells && Lost(s, t, x) && IterInv(s, it)
    ensures IterInv(t, it)
  {
    hide Behind, Ahead, Traced;
    RemovalKeepsTrace(s, t, x, it);
    if it.next != null {
      RemovalKeepsBehind(s, t, x, it, it.next);
      RemovalKeepsAhead(s, t, x, it, it.next);
    }
  }

  lemma RemovalKeepsTrace(s: State, t: State, x: Node, it: Iter)
    requires x in s.cells && Lost(s, t, x) && Traced(s, it)
    ensures Traced(t, it) && it.since <= s.clock
  {
  }

  lemma RemovalKeepsBehind(s: State, t: State, x: Node, it: Iter, n: Node)
    requires Dated(s) && x in s.cells && Lost(s, t, x) && n in s.cells && Behind(s, it, n)
    ensures Behind(t, it, n)
  {
  }

  lemma RemovalKeepsAhead(s: State, t: State, x: Node, it: Iter, n: Node)
    requires Dated(s) && x in s.cells && Lost(s, t, x) && n in s.cells && Ahead(s, it, n) && it.since <= s.clock
    ensures Ahead(t, it, n)
  {
  }

  lemma InsertionKeepsIter(s: State, t: State, x: Node, e: Item, it: Iter)
    requires Dated(s) && Gained(s, t, x, e) && IterInv(s, it)
    ensures IterInv(t, it)
  {
    hide Behind, Ahead, Traced;
    InsertionKeepsTrace(s, t, x, e, it);
    if it.next != null {
      InsertionKeepsBehind(s, t, x, e, it, it.next);
      InsertionKeepsAhead(s, t, x, e, it, it.next);
    }
  }

  lemma InsertionKeepsTrace(s: State, t: State, x: Node, e: Item, it: Iter)
    requires Gained(s, t, x, e) && Traced(s, it)
    ensures Traced(t, it) && it.since <= s.clock
  {
  }

  lemma InsertionKeepsBehind(s: State, t: State, x: Node, e: Item, it: Iter, n: Node)
    requires Dated(s) && Gained(s, t, x, e) && n in s.cells && Behind(s, it, n)
    ensures Behind(t, it, n)
  {
  }

  lemma InsertionKeepsAhead(s: State, t: State, x: Node, e: Item, it: Iter, n: Node)
    requires Dated(s) && Gained(s, t, x, e) && n in s.cells && Ahead(s, it, n) && it.since <= s.clock
    ensures Ahead(t, it, n)
  {
  }
}
