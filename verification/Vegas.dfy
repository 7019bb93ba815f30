/**
 The adaptive limiter's objects, run by one caller at a time; VegasMachine takes the same operations apart
 into the atomic steps of many callers.
 */
module Vegas {
  import opened Arithmetic
  import opened VegasModel

  datatype Operation = Success | Ignore | Drop

  /** A window's measurements: how many, the most requests in flight, whether any was dropped, and the sum
      of the round trip times. */
  datatype Measured = Measured(count: int, maxInFlight: int, drop: bool, totalRTT: int)

  const NOTHING := Measured(0, 0, false, 0)

  function Added(m: Measured, rtt: int, inFlight: int, drop: bool): Measured {
    var max := if m.maxInFlight < inFlight then inFlight else m.maxInFlight;
    Measured(m.count + 1, max, m.drop || drop, m.totalRTT + rtt)
  }

  function MeanRTT(m: Measured): int
    requires 0 <= m.count
  {
    if m.count == 0 then 0 else Quotient(m.totalRTT, m.count)
  }

  datatype Entry = Entry(rtt: int, inFlight: int, drop: bool)

  /** The measurements of a window with the given entries. */
  function AddedAll(es: seq<Entry>): Measured {
    if es == [] then NOTHING
    else
      var e := es[|es| - 1];
      Added(AddedAll(es[..|es| - 1]), e.rtt, e.inFlight, e.drop)
  }

  function SumOf(es: seq<Entry>): int {
    if es == [] then 0 else SumOf(es[..|es| - 1]) + es[|es| - 1].rtt
  }

  /** They are the number of entries, the most in flight (zero if nothing positive), whether any was dropped,
      and the sum and the truncated mean of the round trips. */
  lemma {:induction false} WindowIs(es: seq<Entry>)
    ensures var m := AddedAll(es);
            && m.count == |es| && m.totalRTT == SumOf(es)
            && (forall e | e in es :: e.inFlight <= m.maxInFlight)
            && 0 <= m.maxInFlight && (m.maxInFlight != 0 ==> exists e | e in es :: e.inFlight == m.maxInFlight)
            && (m.drop <==> exists e | e in es :: e.drop)
            && var rest := SumOf(es) - MeanRTT(m) * |es|;
               (0 <= SumOf(es) ==> 0 <= rest && (es != [] ==> rest < |es|))
               && (SumOf(es) <= 0 ==> rest <= 0 && (es != [] ==> -|es| < rest))
  {
    if es != [] {
      var before, e := es[..|es| - 1], es[|es| - 1];
      WindowIs(before);
      assert e in es && es == before + [e];
      assert forall x | x in before :: x in es;
      QuotientTruncates(SumOf(es), |es|);
    }
  }

  class Sample {
    var count: int
    var maxInFlight: int
    var drop: int
    var totalRTT: int

    constructor ()
      ensures M() == NOTHING
    {
      count, maxInFlight, drop, totalRTT := 0, 0, 0, 0;
    }

    ghost function M(): Measured
      reads this
    {
      Measured(count, maxInFlight, drop == 1, totalRTT)
    }

    method CompareAndSwapMax(expected: int, value: int) returns (swapped: bool)
      modifies this`maxInFlight
      ensures swapped == (old(maxInFlight) == expected)
      ensures maxInFlight == if swapped then value else old(maxInFlight)
    {
      swapped := maxInFlight == expected;
      if swapped {
        maxInFlight := value;
      }
    }

    /** Nobody else writes the maximum in between here, so the first comparison succeeds. */
    method Add(rtt: int, inFlight: int, drop: bool)
      modifies this
      ensures M() == Added(old(M()), rtt, inFlight, drop)
    {
      if drop {
        this.drop := 1;
      }
      var max, swapped := maxInFlight, false;
      while max < inFlight && !swapped
        invariant count == old(count) && totalRTT == old(totalRTT) && this.drop == if drop then 1 else old(this.drop)
        invariant !swapped ==> max == maxInFlight == old(maxInFlight)
        invariant swapped ==> maxInFlight == inFlight && old(maxInFlight) < inFlight
        decreases !swapped
      {
        swapped := CompareAndSwapMax(max, inFlight);
      }
      totalRTT := totalRTT + rtt;
      count := count + 1;
    }

    method RTT() returns (r: int)
      requires 0 <= count
      ensures r == MeanRTT(M())
    {
      if count == 0 {
        return 0;
      }
      return Quotient(totalRTT, count);
    }
  }

  class Vegas {
    var limit: int
    var inFlight: int
    var updateTime: int
    var minRTT: int
    var probes: int
    var sample: Sample

    ghost predicate Valid()
      reads this, sample
    {
      VegasModel.Inv(C()) && 0 <= sample.count
    }

    ghost function C(): Control
      reads this
    {
      Control(limit, updateTime, minRTT, probes)
    }

    constructor ()
      ensures Valid() && C() == Control(MIN_LIMIT, 0, 0, 100) && inFlight == 0 && fresh(sample) && sample.M() == NOTHING
    {
      limit, inFlight, updateTime, minRTT, probes := MIN_LIMIT, 0, 0, 0, 100;
      sample := new Sample();
    }

    /** The token is the number of requests in flight, this one included. */
    method Acquire() returns (token: int, success: bool)
      requires Valid()
      modifies this`inFlight
      ensures Valid() && token == inFlight == old(inFlight) + 1 && success == (token <= limit)
    {
      inFlight := inFlight + 1;
      return inFlight, inFlight <= limit;
    }

    /** The callback of an acquired token, called at `end` for a request that began at `start`. */
    method Done(token: int, start: int, end: int, op: Operation, random: int)
      requires Valid() && 0 <= random < 3 * limit
      modifies this, sample
      ensures Valid() && inFlight == old(inFlight) - 1
      ensures op == Ignore ==> C() == old(C()) && sample == old(sample) && sample.M() == old(sample.M())
      ensures op != Ignore ==>
                var m := Added(old(sample.M()), end - start, token, op == Drop);
                if end > old(updateTime) && m.count >= 16 then
                  && fresh(sample) && sample.M() == NOTHING
                  && C() == (if MeanRTT(m) <= 0 then old(C())
                             else Update(old(C()),
                                 Reading(MeanRTT(m), end, m.maxInFlight, m.drop, m.maxInFlight, random)))
                else C() == old(C()) && sample == old(sample) && sample.M() == m
    {
      hide Update;
      inFlight := inFlight - 1;
      if op == Ignore {
        return;
      }
      var rtt := end - start;
      var s := sample;
      s.Add(rtt, token, op == Drop);
      if end > updateTime && s.count >= 16 {
        sample := new Sample();
        var lastRTT := s.RTT();
        if lastRTT <= 0 {
          return;
        }
        Renew(s, lastRTT, end, random);
      }
    }

    /** The update from a sample that has been replaced. */
    method Renew(s: Sample, lastRTT: int, end: int, random: int)
      requires VegasModel.Inv(C()) && 0 < lastRTT && 0 <= random < 3 * limit
      modifies this`updateTime, this`probes, this`minRTT, this`limit
      ensures VegasModel.Inv(C())
      ensures C() == Update(old(C()), Reading(lastRTT, end, s.maxInFlight, s.drop == 1, s.maxInFlight, random))
    {
      hide VegasModel.NewUpdateTime, VegasModel.NewLimit, WithMin;
      ghost var r := Reading(lastRTT, end, s.maxInFlight, s.drop == 1, s.maxInFlight, random);
      UpdateKeeps(C(), r);
      var l := limit;
      NewUpdateTime(lastRTT, end);
      NewMinRTT(s, lastRTT, l, random);
      NewLimit(s, lastRTT, l);
    }

    method NewUpdateTime(lastRTT: int, end: int)
      modifies this`updateTime
      ensures updateTime == VegasModel.NewUpdateTime(end, lastRTT)
    {
      updateTime := end + lastRTT * 5;
      if lastRTT * 5 < MIN_WINDOW {
        updateTime := end + MIN_WINDOW;
      } else if lastRTT * 5 > MAX_WINDOW {
        updateTime := end + MAX_WINDOW;
      }
    }

    method NewMinRTT(s: Sample, lastRTT: int, l: int, random: int)
      requires l == limit
      modifies this`probes, this`minRTT
      ensures forall r: Reading | r.lastRTT == lastRTT && r.flightForMin == s.maxInFlight && r.random == random ::
                C() == WithMin(old(C()), r)
    {
      probes := probes - 1;
      if probes <= 0 {
        var maxFlight := s.maxInFlight;
        if maxFlight * 2 < limit || maxFlight <= MIN_LIMIT {
          probes := 3 * l + random;
          minRTT := lastRTT;
        }
      }
      if minRTT == 0 || lastRTT < minRTT {
        minRTT := lastRTT;
      }
    }

    method NewLimit(s: Sample, lastRTT: int, l: int)
      requires l == limit && 0 <= limit
      modifies this`limit
      ensures forall r: Reading | r.lastRTT == lastRTT && r.flightForLimit == s.maxInFlight
              && r.drop == (s.drop == 1) ::
                limit == VegasModel.NewLimit(old(C()), r)
    {
      if s.drop == 1 {
        StoreLimit(l, -1);
        return;
      }
      if s.maxInFlight * 2 < limit {
        return;
      }
      if QueueBelow(l, minRTT, lastRTT, 1) {
        StoreLimit(l, 6);
      } else if QueueBelow(l, minRTT, lastRTT, 2) {
        StoreLimit(l, 3);
      } else if QueueBelow(l, minRTT, lastRTT, 3) {
        StoreLimit(l, 1);
      } else if QueueAbove(l, minRTT, lastRTT, 6) {
        StoreLimit(l, -1);
      }
    }

    /** Stores `l` plus `c` thresholds, clamped and truncated. */
    method StoreLimit(l: nat, c: int)
      requires c == -1 || 0 <= c
      modifies this`limit
      ensures limit == Moved(l, c)
    {
      limit := Moved(l, c);
    }
  }
}
