/**
 The drop decision of the request queue as a value, and what it decides over whole sequences of packets.
 Times are in milliseconds. The division by a square root is truncated exactly.
 */
module CoDelModel {
  import opened Arithmetic
  import opened Roots

  /** How long a packet may wait, and for how long packets may exceed that before some are dropped. */
  datatype Option = Option(target: int, interval: int)

  datatype Queue = Queue(count: int, dropping: bool, faTime: int, dropNext: int)

  const FRESH := Queue(0, false, 0, 0)

  // ---- One decision --------------------------------------------------------------------------------

  lemma SquareShare(interval: int, count: int)
    requires 0 < count
    ensures 0 <= interval * interval / count <= interval * interval
  {
    assert 0 <= interval * interval;
    QuotientBounds(interval * interval, count);
  }

  /** `interval / sqrt(count)`, truncated toward zero. */
  function Spacing(interval: int, count: int): int
    requires 0 < count
  {
    SquareShare(interval, count);
    var m: int := FloorRoot(interval * interval / count);
    if 0 <= interval then m else -m
  }

  lemma RealShare(n: nat, count: nat)
    requires 0 < count
    ensures (n as real / count as real).Floor == n / count
  {
    var q, r := n / count, n % count;
    assert n == q * count + r;
    assert n as real == q as real * count as real + r as real;
    assert n as real / count as real == q as real + r as real / count as real;
    assert 0.0 <= r as real / count as real < 1.0;
  }

  lemma SquareOfShare(x: real, root: real, d: real)
    requires 0.0 < root && 0.0 < d && root * root == d
    ensures (x / root) * (x / root) == x * x / d
  {
    var y := x / root;
    ShareTimes(x, root);
    TimesShare(y * y, d);
    assert x * x == (y * y) * (root * root);
  }

  lemma ShareTimes(x: real, d: real)
    requires d != 0.0
    ensures x / d * d == x
  {
  }

  lemma TimesShare(z: real, d: real)
    requires d != 0.0
    ensures z * d / d == z
  {
  }

  /** `Spacing` is the integer part of the real quotient. */
  lemma SpacingIsTruncation(interval: nat, count: nat, root: real)
    requires 0 < count && 0.0 < root && root * root == count as real
    ensures (interval as real / root).Floor == Spacing(interval, count)
  {
    SquareShare(interval, count);
    SquareOfShare(interval as real, root, count as real);
    assert interval as real * interval as real == (interval * interval) as real;
    RealShare(interval * interval, count);
    FloorRootIsFloor((interval * interval) as real / count as real, interval as real / root);
  }

  function ControlLaw(o: Option, count: int, now: int): int
    requires 0 < count
  {
    now + Spacing(o.interval, count)
  }

  /** `checkFaTime`: the new first-above time, and whether the sojourn has been above target for a whole
      interval. */
  function CheckFaTime(o: Option, q: Queue, now: int, elapsed: int): (int, bool) {
    if elapsed < o.target then (0, false)
    else if q.faTime == 0 then (now + o.interval, false)
    else (q.faTime, now >= q.faTime)
  }

  /** States in which `judge` is meant to be called: while dropping, something has been counted. */
  predicate Sound(q: Queue) {
    q.dropping ==> 1 <= q.count && q.faTime != 0
  }

  /** `judge` of a packet that waited `elapsed`: the new state and the verdict. */
  function Judge(o: Option, q: Queue, now: int, elapsed: int): (Queue, bool)
    requires q.dropping ==> 1 <= q.count
  {
    var (fa, drop) := CheckFaTime(o, q, now, elapsed);
    var p := q.(faTime := fa);
    if p.dropping && !drop then (p.(dropping := false), drop)
    else if p.dropping && now > p.dropNext then
      (p.(count := p.count + 1, dropNext := ControlLaw(o, p.count + 1, p.dropNext)), true)
    else if drop && (now - p.dropNext < o.interval || now - p.faTime >= o.interval) then
      var count := if now - p.dropNext < o.interval && p.count > 2 then p.count - 2 else 1;
      (p.(dropping := true, count := count, dropNext := ControlLaw(o, count, now)), true)
    else (p, drop)
  }

  /** The drop cycle never changes the verdict: it is that of the first-above check, in every state. */
  lemma VerdictIsFaCheck(o: Option, q: Queue, now: int, elapsed: int)
    requires q.dropping ==> 1 <= q.count
    ensures Judge(o, q, now, elapsed).1 == CheckFaTime(o, q, now, elapsed).1
    ensures Judge(o, q, now, elapsed).0.faTime == CheckFaTime(o, q, now, elapsed).0
  {
  }

  /** `next` lies `interval / sqrt(count)`, truncated, after `base`: said with squares. */
  predicate Spaced(base: int, next: int, interval: int, count: int) {
    var m := next - base;
    0 <= m && m * m * count <= interval * interval < (m + 1) * (m + 1) * count
  }

  lemma SpacingIsSpaced(base: int, interval: int, count: int)
    requires 0 <= interval && 0 < count
    ensures Spaced(base, base + Spacing(interval, count), interval, count)
  {
    SquareShare(interval, count);
    var n := interval * interval;
    var m := FloorRoot(n / count);
    assert m * m <= n / count < (m + 1) * (m + 1);
    ShareBounds(n, count, m * m, (m + 1) * (m + 1));
  }

  lemma ShareBounds(n: nat, count: nat, a: nat, b: nat)
    requires 0 < count && a <= n / count < b
    ensures a * count <= n < b * count
  {
    MulOrder(a, n / count, count);
    MulOrder(n / count + 1, b, count);
  }

  /** The drop cycle. It is left with the first packet that is kept. It is entered with a dropped packet that
      comes soon after the last scheduled drop, with a count a little below that of the cycle before, or late,
      with a count of one. While it lasts, a packet after the scheduled drop counts one more and schedules the
      next from there; a packet before it starts the cycle again from now. */
  lemma DropCycle(o: Option, q: Queue, now: int, elapsed: int)
    requires (q.dropping ==> 1 <= q.count) && 0 < o.interval
    ensures var (q', drop) := Judge(o, q, now, elapsed);
            var soon := now - q.dropNext < o.interval;
            && (!drop ==> !q'.dropping && q'.count == q.count && q'.dropNext == q.dropNext)
            && (drop && q.dropping && q.dropNext < now ==>
                  && q'.dropping && q'.count == q.count + 1
                  && Spaced(q.dropNext, q'.dropNext, o.interval, q.count + 1))
            && (drop && (q.dropping ==> now <= q.dropNext) && soon ==>
                  && q'.dropping && q'.count == (if 2 < q.count then q.count - 2 else 1)
                  && Spaced(now, q'.dropNext, o.interval, q'.count))
            && (drop && !q.dropping && !soon && o.interval <= now - q.faTime ==>
                  && q'.dropping && q'.count == 1 && q'.dropNext == now + o.interval)
            && (drop && !q.dropping && !soon && now - q.faTime < o.interval ==>
                  !q'.dropping && q'.count == q.count && q'.dropNext == q.dropNext)
  {
    hide Spacing, Spaced;
    if q.dropping { SpacingIsSpaced(q.dropNext, o.interval, q.count + 1); }
    SpacingIsSpaced(now, o.interval, if 2 < q.count then q.count - 2 else 1);
    SpacingOfOne(o.interval);
  }

  lemma SpacingOfOne(interval: nat)
    ensures Spacing(interval, 1) == interval
  {
    RootUnique(interval * interval, interval);
  }

  // ---- Sequences of packets ------------------------------------------------------------------------

  /** A judged packet: when, and how long it had waited. */
  datatype Packet = Packet(now: int, elapsed: int)

  /** The state after judging the packets in order. */
  function Run(o: Option, ps: seq<Packet>): (q: Queue)
    requires forall p | p in ps :: p.now + o.interval != 0
    ensures Sound(q)
  {
    if ps == [] then FRESH
    else
      var p := ps[|ps| - 1];
      Judge(o, Run(o, ps[..|ps| - 1]), p.now, p.elapsed).0
  }

  function Verdict(o: Option, ps: seq<Packet>, k: nat): bool
    requires k < |ps| && forall p | p in ps :: p.now + o.interval != 0
  {
    Judge(o, Run(o, ps[..k]), ps[k].now, ps[k].elapsed).1
  }

  /** The first packet of the run of packets above target that `k` is in (`k` itself must be above). */
  function RunStart(o: Option, ps: seq<Packet>, k: nat): (i: nat)
    requires k < |ps| && o.target <= ps[k].elapsed
    ensures i <= k && (forall j | i <= j <= k :: o.target <= ps[j].elapsed)
    ensures i == 0 || ps[i - 1].elapsed < o.target
  {
    if k == 0 || ps[k - 1].elapsed < o.target then k else RunStart(o, ps, k - 1)
  }

  /** After a packet above target the first-above time is an interval past the start of its run; after one
      below it is zero. */
  lemma {:induction false} FaTimeOfRun(o: Option, ps: seq<Packet>, k: nat)
    requires k < |ps| && forall p | p in ps :: p.now + o.interval != 0
    ensures Run(o, ps[..k + 1]).faTime ==
            if ps[k].elapsed < o.target then 0 else ps[RunStart(o, ps, k)].now + o.interval
  {
    hide Judge;
    assert ps[..k + 1][..k] == ps[..k];
    VerdictIsFaCheck(o, Run(o, ps[..k]), ps[k].now, ps[k].elapsed);
    hide Judge;
    if 0 < k {
      FaTimeOfRun(o, ps, k - 1);
      if o.target <= ps[k - 1].elapsed { assert ps[RunStart(o, ps, k - 1)] in ps; }
    } else {
      assert ps[..0] == [];
    }
  }

  /** A packet is dropped exactly if it is in a run of packets above target, is not the first of it, and
      the first was judged at least an interval before. */
  lemma DroppedIff(o: Option, ps: seq<Packet>, k: nat)
    requires k < |ps| && forall p | p in ps :: p.now + o.interval != 0
    ensures Verdict(o, ps, k) <==>
            && o.target <= ps[k].elapsed && RunStart(o, ps, k) < k
            && ps[RunStart(o, ps, k)].now + o.interval <= ps[k].now
  {
    hide Judge, Run;
    VerdictIsFaCheck(o, Run(o, ps[..k]), ps[k].now, ps[k].elapsed);
    FaTimeBefore(o, ps, k);
  }

  /** The first-above time that a packet finds. */
  lemma FaTimeBefore(o: Option, ps: seq<Packet>, k: nat)
    requires k < |ps| && forall p | p in ps :: p.now + o.interval != 0
    ensures k == 0 || ps[k - 1].elapsed < o.target ==> Run(o, ps[..k]).faTime == 0
    ensures 0 < k && o.target <= ps[k - 1].elapsed ==>
              && Run(o, ps[..k]).faTime == ps[RunStart(o, ps, k - 1)].now + o.interval
              && Run(o, ps[..k]).faTime != 0
  {
    hide Judge;
    if 0 < k {
      FaTimeOfRun(o, ps, k - 1);
      if o.target <= ps[k - 1].elapsed { assert ps[RunStart(o, ps, k - 1)] in ps; }
    }
  }

  /** With a positive interval and clock the first packet of a run needs no exception. */
  lemma DroppedIffAboveForAnInterval(o: Option, ps: seq<Packet>, k: nat)
    requires 0 < o.interval && k < |ps| && forall p | p in ps :: 0 < p.now
    ensures Verdict(o, ps, k) <==>
            o.target <= ps[k].elapsed && o.interval <= ps[k].now - ps[RunStart(o, ps, k)].now
  {
    DroppedIff(o, ps, k);
  }

  // ---- Bounds on the state -------------------------------------------------------------------------

  function Latest(ps: seq<Packet>): int {
    if ps == [] then 0
    else
      var m := Latest(ps[..|ps| - 1]);
      if m < ps[|ps| - 1].now then ps[|ps| - 1].now else m
  }

  lemma SpacingBounded(interval: int, count: int)
    requires 0 <= interval && 1 <= count
    ensures 0 <= Spacing(interval, count) <= interval
  {
    SquareShare(interval, count);
    SquareOrder(FloorRoot(interval * interval / count), interval);
  }

  lemma JudgeBounded(o: Option, q: Queue, now: int, elapsed: int, latest: int)
    requires 0 <= o.interval && (q.dropping ==> 1 <= q.count) && now <= latest && q.dropNext <= latest + o.interval
    ensures Judge(o, q, now, elapsed).0.dropNext <= latest + o.interval
  {
    hide Spacing;
    SpacingBounded(o.interval, 1);
    if 1 <= q.count + 1 { SpacingBounded(o.interval, q.count + 1); }
    if 1 <= q.count - 2 { SpacingBounded(o.interval, q.count - 2); }
  }

  /** The next drop is never scheduled more than an interval past the latest time seen. */
  lemma {:induction false} DropNextBounded(o: Option, ps: seq<Packet>)
    requires 0 <= o.interval && forall p | p in ps :: p.now + o.interval != 0
    ensures Run(o, ps).dropNext <= Latest(ps) + o.interval
  {
    hide Judge;
    if ps != [] {
      var n := |ps| - 1;
      DropNextBounded(o, ps[..n]);
      JudgeBounded(o, Run(o, ps[..n]), ps[n].now, ps[n].elapsed, Latest(ps));
    }
  }
}
