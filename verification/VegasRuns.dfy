/**
 Callbacks that nobody interrupts: the atomic steps of VegasMachine, taken by one request in a row, add up to
 what the object's method does.
 */
module VegasRuns {
  import opened Arithmetic
  import opened Wrappers
  import opened VegasModel
  import opened Vegas
  import opened VegasMachine

  /** Inside its callback, past giving the token back. */
  predicate InCallback(pc: Pc) {
    pc.ToLoadSample? || HasSample(pc)
  }

  /** The steps, all taken by `t` inside its callback, lead from one state to the other. */
  ghost predicate Leads(t: nat, st: State, steps: seq<Step>, st': State)
    decreases |steps|
  {
    if steps == [] then st == st'
    else
      && Enabled(st, steps[0]) && !steps[0].Return? && steps[0].t == t && InCallback(st.threads[t])
      && Leads(t, Next(st, steps[0]), steps[1..], st')
  }

  lemma {:induction false} LeadsOn(t: nat, st: State, steps: seq<Step>, mid: State, more: seq<Step>, st': State)
    requires Leads(t, st, steps, mid) && Leads(t, mid, more, st')
    ensures Leads(t, st, steps + more, st')
    decreases |steps|
  {
    hide Next, Enabled;
    if steps == [] {
      assert steps + more == more;
    } else {
      LeadsOn(t, Next(st, steps[0]), steps[1..], mid, more, st');
      assert (steps + more)[1..] == steps[1..] + more;
    }
  }

  lemma OneStep(st: State, step: Step)
    requires Enabled(st, step) && !step.Return? && InCallback(st.threads[step.t])
    ensures Leads(step.t, st, [step], Next(st, step))
  {
    hide Next, Enabled;
    assert [step][1..] == [];
  }

  /** Adds a step of `t` to a row of steps. */
  lemma Then(st: State, steps: seq<Step>, mid: State, step: Step) returns (longer: seq<Step>)
    requires Leads(step.t, st, steps, mid) && Enabled(mid, step) && !step.Return? && InCallback(mid.threads[step.t])
    ensures longer == steps + [step] && Leads(step.t, st, longer, Next(mid, step))
  {
    hide Next, Enabled, Leads;
    OneStep(mid, step);
    longer := steps + [step];
    LeadsOn(step.t, st, steps, mid, [step], Next(mid, step));
  }

  lemma {:induction false} AllOwn(t: nat, st: State, steps: seq<Step>, st': State)
    requires Leads(t, st, steps, st')
    ensures forall k | 0 <= k < |steps| :: steps[k].t == t
    decreases |steps|
  {
    hide Next, Enabled;
    if steps != [] { AllOwn(t, Next(st, steps[0]), steps[1..], st'); }
  }

  lemma AtTwice(st: State, t: nat, a: Pc, b: Pc)
    ensures At(At(st, t, a), t, b) == At(st, t, b)
  {
  }

  // ---- Adding an entry -----------------------------------------------------------------------------

  /** The sample with one entry more. */
  function Entered(x: Cell, t: nat, c: Call): Cell {
    Cell(Added(x.m, c.rtt, c.inFlight, c.drop), x.log + [t], x.counted + {t})
  }

  lemma SetTwice(st: State, s: nat, x: Cell, y: Cell)
    requires s < |st.samples|
    ensures SetSample(SetSample(st, s, x), s, y) == SetSample(st, s, y)
  {
    assert st.samples[s := x][s := y] == st.samples[s := y];
  }

  /** The request about to do `pc`, with `x` as sample `s`. */
  function Doing(st: State, t: nat, s: nat, x: Cell, pc: Pc): State
    requires s < |st.samples|
  {
    At(SetSample(st, s, x), t, pc)
  }

  lemma DoingTwice(st: State, t: nat, s: nat, x: Cell, a: Pc, y: Cell, b: Pc)
    requires s < |st.samples|
    ensures Doing(Doing(st, t, s, x, a), t, s, y, b) == Doing(st, t, s, y, b)
  {
    SetTwice(st, s, x, y);
    AtTwice(SetSample(st, s, y), t, a, b);
  }

  /** The steps that touch nothing but the sample. */
  predicate OnSample(pc: Pc) {
    pc.ToStoreDrop? || pc.ToLoadMax? || pc.ToSwapMax? || pc.ToAddTotal? || pc.ToAddCount?
  }

  /** What such a step makes of the sample, and what comes next. */
  function Worked(x: Cell, t: nat, pc: Pc): (Cell, Pc)
    requires OnSample(pc)
  {
    match pc
    case ToStoreDrop(c, s) => (x.(m := x.m.(drop := x.m.drop || c.drop)), ToLoadMax(c, s))
    case ToLoadMax(c, s) =>
      (x, if x.m.maxInFlight < c.inFlight then ToSwapMax(c, s, x.m.maxInFlight) else ToAddTotal(c, s))
    case ToSwapMax(c, s, max) =>
      if x.m.maxInFlight == max then (x.(m := x.m.(maxInFlight := c.inFlight)), ToAddTotal(c, s))
      else (x, ToLoadMax(c, s))
    case ToAddTotal(c, s) =>
      (x.(m := x.m.(totalRTT := x.m.totalRTT + c.rtt), log := x.log + [t]), ToAddCount(c, s))
    case ToAddCount(c, s) =>
      (x.(m := x.m.(count := x.m.count + 1), counted := x.counted + {t}), ToCheckTime(c, s))
  }

  lemma StepWorks(st: State, t: nat, s: nat, x: Cell, pc: Pc)
    requires s < |st.samples| && t in st.threads && OnSample(pc) && pc.s == s
    ensures var d := Doing(st, t, s, x, pc);
            && Enabled(d, Move(t)) && d.threads[t] == pc
            && Next(d, Move(t)) == Doing(d, t, s, Worked(x, t, pc).0, Worked(x, t, pc).1)
  {
    var d := Doing(st, t, s, x, pc);
    assert d.samples[s := x] == d.samples;
  }

  /** Continues a row of steps by one on the sample. */
  lemma ThenWorks(st: State, steps: seq<Step>, t: nat, s: nat, x: Cell, pc: Pc) returns (longer: seq<Step>)
    requires s < |st.samples| && t in st.threads && OnSample(pc) && pc.s == s
    requires Leads(t, st, steps, Doing(st, t, s, x, pc))
    ensures Leads(t, st, longer, Doing(st, t, s, Worked(x, t, pc).0, Worked(x, t, pc).1))
  {
    hide Leads, Next, Enabled, Doing, Worked;
    StepWorks(st, t, s, x, pc);
    longer := Then(st, steps, Doing(st, t, s, x, pc), Move(t));
    DoingTwice(st, t, s, x, pc, Worked(x, t, pc).0, Worked(x, t, pc).1);
  }

  lemma LoadsSample(st: State, t: nat, c: Call) returns (steps: seq<Step>)
    requires t in st.threads && st.threads[t] == ToLoadSample(c) && st.samples != []
    ensures var s := |st.samples| - 1; Leads(t, st, steps, Doing(st, t, s, st.samples[s], ToStoreDrop(c, s)))
  {
    var s := |st.samples| - 1;
    steps := [Move(t)];
    OneStep(st, Move(t));
    assert st.samples[s := st.samples[s]] == st.samples;
  }

  /** The entry of a callback: the current sample has it, and the callback goes on to check the time. */
  lemma Enters(st: State, t: nat, c: Call) returns (steps: seq<Step>)
    requires t in st.threads && st.threads[t] == ToLoadSample(c) && st.samples != []
    ensures var s := |st.samples| - 1;
            Leads(t, st, steps, Doing(st, t, s, Entered(st.samples[s], t, c), ToCheckTime(c, s)))
  {
    hide Leads, Doing;
    var s := |st.samples| - 1;
    var x, pc := st.samples[s], ToStoreDrop(c, s);
    steps := LoadsSample(st, t, c);
    steps := ThenWorks(st, steps, t, s, x, pc);
    x, pc := Worked(x, t, pc).0, Worked(x, t, pc).1;
    steps := ThenWorks(st, steps, t, s, x, pc);
    x, pc := Worked(x, t, pc).0, Worked(x, t, pc).1;
    if pc.ToSwapMax? {
      steps := ThenWorks(st, steps, t, s, x, pc);
      x, pc := Worked(x, t, pc).0, Worked(x, t, pc).1;
    }
    steps := ThenWorks(st, steps, t, s, x, pc);
    x, pc := Worked(x, t, pc).0, Worked(x, t, pc).1;
    steps := ThenWorks(st, steps, t, s, x, pc);
    x, pc := Worked(x, t, pc).0, Worked(x, t, pc).1;
  }

  // ---- Making an update, or not --------------------------------------------------------------------

  lemma SkipsUpdate(st: State, t: nat, c: Call, s: nat) returns (steps: seq<Step>)
    requires t in st.threads && st.threads[t] == ToCheckTime(c, s) && s < |st.samples|
    requires c.end <= st.v.updateTime || st.samples[s].m.count < 16
    ensures Leads(t, st, steps, At(st, t, Finished))
  {
    steps := [Move(t)];
    OneStep(st, Move(t));
    if st.v.updateTime < c.end {
      steps := Then(st, steps, At(st, t, ToCheckCount(c, s)), Move(t));
      AtTwice(st, t, ToCheckCount(c, s), Finished);
    }
  }

  /** The sample is replaced, with the mutex in hand. */
  function Replaced(st: State, t: nat): State {
    st.(mutex := Some(t), samples := st.samples + [EMPTY])
  }

  lemma Replaces(st: State, t: nat, c: Call) returns (steps: seq<Step>)
    requires t in st.threads && st.samples != [] && st.mutex == None
    requires var s := |st.samples| - 1;
             st.threads[t] == ToCheckTime(c, s) && st.v.updateTime < c.end && st.samples[s].m.count >= 16
    ensures Leads(t, st, steps, At(Replaced(st, t), t, ToLoadCount(c, |st.samples| - 1)))
  {
    hide Leads;
    var s := |st.samples| - 1;
    var a, b := At(st, t, ToCheckCount(c, s)), At(st, t, ToLock(c, s));
    var d := At(st.(mutex := Some(t)), t, ToCompareSample(c, s));
    steps := [Move(t)];
    OneStep(st, Move(t));
    steps := Then(st, steps, a, Move(t));
    assert Next(a, Move(t)) == b;
    steps := Then(st, steps, b, Move(t));
    assert Next(b, Move(t)) == d;
    steps := Then(st, steps, d, Move(t));
    assert Next(d, Move(t)) == At(Replaced(st, t), t, ToLoadCount(c, s));
  }

  lemma Measures(st: State, t: nat, c: Call, s: nat) returns (steps: seq<Step>)
    requires t in st.threads && st.threads[t] == ToLoadCount(c, s) && s < |st.samples| && 0 < st.samples[s].m.count
    ensures var m := st.samples[s].m;
            var rtt := MeanRTT(m);
            Leads(t, st, steps,
                  if rtt <= 0 then At(st.(mutex := None), t, Finished) else At(st, t, ToSetTime(c, s, m.count, rtt)))
  {
    hide Leads, Quotient;
    var x := st.samples[s];
    var a := At(st, t, ToLoadTotal(c, s, x.m.count, x.counted));
    steps := [Move(t)];
    OneStep(st, Move(t));
    steps := Then(st, steps, a, Move(t));
    AtTwice(st, t, a.threads[t], ToSetTime(c, s, x.m.count, MeanRTT(x.m)));
    AtTwice(st.(mutex := None), t, a.threads[t], Finished);
  }

  /** What an update reads. */
  function ReadingOf(m: Measured, end: int, random: int): Reading
    requires 0 <= m.count
  {
    Reading(MeanRTT(m), end, m.maxInFlight, m.drop, m.maxInFlight, random)
  }

  /** The update time and the minimum are set. */
  lemma SetsTimeAndMin(st: State, t: nat, c: Call, s: nat, n: nat, rtt: int, random: int) returns (steps: seq<Step>)
    requires t in st.threads && s < |st.samples| && st.threads[t] == ToSetTime(c, s, n, rtt)
    requires 0 <= st.v.limit && 0 <= random < 3 * st.v.limit
    ensures var r := Reading(rtt, c.end, st.samples[s].m.maxInFlight, false, 0, random);
            var v := WithMin(st.v.(updateTime := VegasModel.NewUpdateTime(c.end, rtt)), r);
            Leads(t, st, steps, At(st.(v := v), t, ToLoadDrop(c, s, n, r)))
  {
    hide Leads, VegasModel.NewUpdateTime;
    var r := Reading(rtt, c.end, st.samples[s].m.maxInFlight, false, 0, random);
    var v1 := st.v.(updateTime := VegasModel.NewUpdateTime(c.end, rtt));
    var a := At(st.(v := v1), t, ToSetMin(c, s, n, rtt));
    steps := [Move(t)];
    OneStep(st, Move(t));
    steps := Then(st, steps, a, SetMin(t, random));
    assert Next(a, SetMin(t, random)) == At(st.(v := WithMin(v1, r)), t, ToLoadDrop(c, s, n, r));
  }

  /** The limit is set. */
  lemma SetsLimit(st: State, t: nat, c: Call, s: nat, n: nat, r: Reading) returns (steps: seq<Step>)
    requires t in st.threads && s < |st.samples| && st.threads[t] == ToLoadDrop(c, s, n, r) && 0 <= st.v.limit
    ensures var read := r.(drop := st.samples[s].m.drop, flightForLimit := st.samples[s].m.maxInFlight);
            var v := st.v.(limit := VegasModel.NewLimit(st.v, read));
            Leads(t, st, steps,
                  At(st.(v := v, mutex := None, updates := st.updates + [Updated(s, n, read)]), t, Finished))
  {
    hide Leads, VegasModel.NewLimit;
    var m := st.samples[s].m;
    var read := r.(drop := m.drop, flightForLimit := m.maxInFlight);
    var d := At(st, t, ToLoadFlight(c, s, n, r.(drop := m.drop)));
    var e := At(st, t, ToSetLimit(c, s, n, read));
    steps := [Move(t)];
    OneStep(st, Move(t));
    steps := Then(st, steps, d, Move(t));
    assert Next(d, Move(t)) == e;
    steps := Then(st, steps, e, Move(t));
    var v := st.v.(limit := VegasModel.NewLimit(st.v, read));
    assert Next(e, Move(t)) == At(st.(v := v, mutex := None, updates := st.updates + [Updated(s, n, read)]), t,
                                  Finished);
  }

  lemma SetsControl(st: State, t: nat, c: Call, s: nat, random: int) returns (steps: seq<Step>)
    requires t in st.threads && s < |st.samples| && 0 <= st.samples[s].m.count
    requires st.threads[t] == ToSetTime(c, s, st.samples[s].m.count, MeanRTT(st.samples[s].m))
    requires 0 <= st.v.limit && 0 <= random < 3 * st.v.limit
    ensures var m := st.samples[s].m;
            var r := ReadingOf(m, c.end, random);
            var update := Updated(s, m.count, r);
            Leads(t, st, steps,
                  At(st.(v := Update(st.v, r), mutex := None, updates := st.updates + [update]), t, Finished))
  {
    hide Leads, VegasModel.NewLimit, VegasModel.NewUpdateTime, MeanRTT;
    var m := st.samples[s].m;
    var rtt := MeanRTT(m);
    var r := Reading(rtt, c.end, m.maxInFlight, false, 0, random);
    var v := WithMin(st.v.(updateTime := VegasModel.NewUpdateTime(c.end, rtt)), r);
    var mid := At(st.(v := v), t, ToLoadDrop(c, s, m.count, r));
    steps := SetsTimeAndMin(st, t, c, s, m.count, rtt, random);
    var more := SetsLimit(mid, t, c, s, m.count, r);
    var read := ReadingOf(m, c.end, random);
    assert Update(st.v, read) == v.(limit := VegasModel.NewLimit(v, read));
    var last := At(st.(v := Update(st.v, read), mutex := None, updates := st.updates + [Updated(s, m.count, read)]), t,
                   Finished);
    assert mid.threads[t := Finished] == st.threads[t := Finished];
    assert At(mid.(v := Update(st.v, read), mutex := None, updates := st.updates + [Updated(s, m.count, read)]), t,
              Finished) == last;
    LeadsOn(t, st, steps, mid, more, last);
    steps := steps + more;
  }

  function AfterUpdate(st: State, t: nat, c: Call, s: nat, random: int): State
    requires s < |st.samples| && 0 <= st.samples[s].m.count && 0 <= st.v.limit
  {
    var m := st.samples[s].m;
    var r := ReadingOf(m, c.end, random);
    var free := st.(mutex := None);
    At(if MeanRTT(m) <= 0 then free
       else free.(v := Update(st.v, r), updates := st.updates + [Updated(s, m.count, r)]), t, Finished)
  }

  lemma Updates(st: State, t: nat, c: Call, s: nat, random: int) returns (steps: seq<Step>)
    requires t in st.threads && st.threads[t] == ToLoadCount(c, s) && s < |st.samples| && 0 < st.samples[s].m.count
    requires 0 <= st.v.limit && 0 <= random < 3 * st.v.limit
    ensures Leads(t, st, steps, AfterUpdate(st, t, c, s, random))
  {
    hide Leads, Update, MeanRTT;
    var m := st.samples[s].m;
    steps := Measures(st, t, c, s);
    if 0 < MeanRTT(m) {
      var p := At(st, t, ToSetTime(c, s, m.count, MeanRTT(m)));
      var more := SetsControl(p, t, c, s, random);
      assert AfterUpdate(st, t, c, s, random) == AfterUpdate(p, t, c, s, random);
      LeadsOn(t, st, steps, p, more, AfterUpdate(p, t, c, s, random));
      steps := steps + more;
    }
  }

  /** What a callback adds up to. */
  function AfterCallback(st: State, t: nat, c: Call, random: int): State
    requires st.samples != [] && 0 <= st.samples[|st.samples| - 1].m.count && 0 <= st.v.limit
  {
    var s := |st.samples| - 1;
    var x := Entered(st.samples[s], t, c);
    var one := SetSample(st, s, x);
    if c.end <= st.v.updateTime || x.m.count < 16 then At(one, t, Finished)
    else AfterUpdate(one.(samples := one.samples + [EMPTY]), t, c, s, random)
  }

  /** A callback that nobody interrupts does what the method of the object does: it adds its entry, and the
      16th or later entry after the update time replaces the sample and, if the mean is positive, makes the
      update. */
  lemma UninterruptedCallback(st: State, t: nat, c: Call, random: int) returns (steps: seq<Step>)
    requires t in st.threads && st.threads[t] == ToLoadSample(c) && st.samples != [] && st.mutex == None
    requires 0 <= st.v.limit && 0 <= random < 3 * st.v.limit && 0 <= st.samples[|st.samples| - 1].m.count
    ensures Leads(t, st, steps, AfterCallback(st, t, c, random)) && forall k | 0 <= k < |steps| :: steps[k].t == t
  {
    hide Leads, Update, MeanRTT, Added;
    var s := |st.samples| - 1;
    var x := Entered(st.samples[s], t, c);
    var p := Doing(st, t, s, x, ToCheckTime(c, s));
    steps := Enters(st, t, c);
    if c.end <= st.v.updateTime || x.m.count < 16 {
      var more := SkipsUpdate(p, t, c, s);
      AtTwice(SetSample(st, s, x), t, p.threads[t], Finished);
      LeadsOn(t, st, steps, p, more, At(p, t, Finished));
      steps := steps + more;
    } else {
      var more := Replaces(p, t, c);
      var q := At(Replaced(p, t), t, ToLoadCount(c, s));
      LeadsOn(t, st, steps, p, more, q);
      steps := steps + more;
      more := Updates(q, t, c, s, random);
      assert AfterUpdate(q, t, c, s, random) == AfterCallback(st, t, c, random);
      LeadsOn(t, st, steps, q, more, AfterUpdate(q, t, c, s, random));
      steps := steps + more;
    }
    AllOwn(t, st, steps, AfterCallback(st, t, c, random));
  }
}
