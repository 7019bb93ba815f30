/**
 The adaptive limiter under concurrency: the atomic loads, adds, stores and compare-and-swaps of `Acquire`
 and of its callback are steps, and the steps of any number of requests interleave. A request is known by a
 number of its own.

 Only under the mutex are some put together: comparing the sample and replacing it, what `newMinRTT` does
 (one load of the sample's maximum, then fields that only the holder of the mutex uses), and unlocking with
 the last step before it. Samples and limit are stored by the holder alone, so whatever others load in
 between they could have loaded right before or right after.
 */
module VegasMachine {
  import opened Arithmetic
  import opened Wrappers
  import opened VegasModel
  import opened Vegas

  /** The arguments of a callback: the token it was made with, and the round trip it reports. */
  datatype Call = Call(inFlight: int, rtt: int, drop: bool, end: int)

  /** Where a request is; each name says what it does next. */
  datatype Pc =
    | ToEnter
    | ToLoadLimit(f: int)
    | ToReturn(f: int, success: bool)
    | ToLoadSample(c: Call)
    | ToStoreDrop(c: Call, s: nat)
    | ToLoadMax(c: Call, s: nat)
    | ToSwapMax(c: Call, s: nat, max: int)
    | ToAddTotal(c: Call, s: nat)
    | ToAddCount(c: Call, s: nat)
    | ToCheckTime(c: Call, s: nat)
    | ToCheckCount(c: Call, s: nat)
    | ToLock(c: Call, s: nat)
    | ToCompareSample(c: Call, s: nat)
    | ToLoadCount(c: Call, s: nat)
    | ToLoadTotal(c: Call, s: nat, n: nat, seen: set<nat>)
    | ToSetTime(c: Call, s: nat, n: nat, rtt: int)
    | ToSetMin(c: Call, s: nat, n: nat, rtt: int)
    | ToLoadDrop(c: Call, s: nat, n: nat, r: Reading)   // what has been read of the window so far
    | ToLoadFlight(c: Call, s: nat, n: nat, r: Reading)
    | ToSetLimit(c: Call, s: nat, n: nat, r: Reading)
    | Finished

  /** A sample object, with the requests that added to its total, in order, and those that were counted. */
  datatype Cell = Cell(m: Measured, log: seq<nat>, counted: set<nat>)

  /** An update of the limit: the sample it was made from, the number of entries it found, and what it read. */
  datatype Updated = Updated(s: nat, n: nat, r: Reading)

  /** The newest sample is the current one. */
  datatype State = State(
    v: Control, inFlight: int, samples: seq<Cell>, mutex: Option<nat>, threads: map<nat, Pc>,
    calls: map<nat, Call>, updates: seq<Updated>)

  datatype Step =
    | Move(t: nat)
    | Return(t: nat, op: Operation, rtt: int, end: int)   // the callback is called
    | SetMin(t: nat, random: int)

  const EMPTY := Cell(NOTHING, [], {})

  predicate Outstanding(pc: Pc) {
    pc.ToLoadLimit? || pc.ToReturn?
  }

  predicate HoldsMutex(pc: Pc) {
    || pc.ToCompareSample? || pc.ToLoadCount? || pc.ToLoadTotal? || pc.ToSetTime?
    || pc.ToSetMin? || pc.ToLoadDrop? || pc.ToLoadFlight? || pc.ToSetLimit?
  }

  /** Past the replacement of the sample. */
  predicate Updating(pc: Pc) {
    HoldsMutex(pc) && !pc.ToCompareSample?
  }

  predicate HasSample(pc: Pc) {
    !pc.ToEnter? && !pc.Finished? && !Outstanding(pc) && !pc.ToLoadSample?
  }

  predicate Enabled(st: State, step: Step) {
    && step.t in st.threads
    && var pc := st.threads[step.t];
       match step
       case Return(_, _, _, _) => pc.ToReturn?
       case SetMin(_, random) => pc.ToSetMin? && pc.s < |st.samples| && 0 <= random < 3 * st.v.limit
       case Move(_) =>
         && !pc.ToReturn? && !pc.ToSetMin? && !pc.Finished?
         && (pc.ToLock? ==> st.mutex == None)
         && (HasSample(pc) ==> pc.s < |st.samples|)
         && (pc.ToLoadSample? || pc.ToCompareSample? ==> st.samples != [])
         && (pc.ToLoadTotal? ==> 0 < pc.n)
         && (pc.ToSetLimit? ==> 0 <= st.v.limit)
  }

  function SetSample(st: State, s: nat, c: Cell): State
    requires s < |st.samples|
  {
    st.(samples := st.samples[s := c])
  }

  function At(st: State, t: nat, pc: Pc): State {
    st.(threads := st.threads[t := pc])
  }

  /** One atomic step of request `t`. */
  function Moved(st: State, t: nat): State
    requires Enabled(st, Move(t))
  {
    match st.threads[t]
    case ToEnter => At(st.(inFlight := st.inFlight + 1), t, ToLoadLimit(st.inFlight + 1))
    case ToLoadLimit(f) => At(st, t, ToReturn(f, f <= st.v.limit))
    case ToLoadSample(c) => At(st, t, ToStoreDrop(c, |st.samples| - 1))
    case ToStoreDrop(c, s) =>
      var x := st.samples[s];
      At(SetSample(st, s, x.(m := x.m.(drop := x.m.drop || c.drop))), t, ToLoadMax(c, s))
    case ToLoadMax(c, s) =>
      var max := st.samples[s].m.maxInFlight;
      At(st, t, if max < c.inFlight then ToSwapMax(c, s, max) else ToAddTotal(c, s))
    case ToSwapMax(c, s, max) =>
      var x := st.samples[s];
      if x.m.maxInFlight == max then At(SetSample(st, s, x.(m := x.m.(maxInFlight := c.inFlight))), t, ToAddTotal(c, s))
      else At(st, t, ToLoadMax(c, s))
    case ToAddTotal(c, s) =>
      var x := st.samples[s];
      At(SetSample(st, s, x.(m := x.m.(totalRTT := x.m.totalRTT + c.rtt), log := x.log + [t])), t, ToAddCount(c, s))
    case ToAddCount(c, s) =>
      var x := st.samples[s];
      At(SetSample(st, s, x.(m := x.m.(count := x.m.count + 1), counted := x.counted + {t})), t, ToCheckTime(c, s))
    case ToCheckTime(c, s) => At(st, t, if c.end > st.v.updateTime then ToCheckCount(c, s) else Finished)
    case ToCheckCount(c, s) => At(st, t, if st.samples[s].m.count >= 16 then ToLock(c, s) else Finished)
    case ToLock(c, s) => At(st.(mutex := Some(t)), t, ToCompareSample(c, s))
    case ToCompareSample(c, s) =>
      if s != |st.samples| - 1 then At(st.(mutex := None), t, Finished)
      else At(st.(samples := st.samples + [EMPTY]), t, ToLoadCount(c, s))
    case ToLoadCount(c, s) =>
      var x := st.samples[s];
      if x.m.count <= 0 then At(st.(mutex := None), t, Finished) else At(st, t, ToLoadTotal(c, s, x.m.count, x.counted))
    case ToLoadTotal(c, s, n, seen) =>
      var rtt := Quotient(st.samples[s].m.totalRTT, n);
      if rtt <= 0 then At(st.(mutex := None), t, Finished) else At(st, t, ToSetTime(c, s, n, rtt))
    case ToSetTime(c, s, n, rtt) =>
      At(st.(v := st.v.(updateTime := VegasModel.NewUpdateTime(c.end, rtt))), t, ToSetMin(c, s, n, rtt))
    case ToLoadDrop(c, s, n, r) => At(st, t, ToLoadFlight(c, s, n, r.(drop := st.samples[s].m.drop)))
    case ToLoadFlight(c, s, n, r) => At(st, t, ToSetLimit(c, s, n, r.(flightForLimit := st.samples[s].m.maxInFlight)))
    case ToSetLimit(c, s, n, r) =>
      var v := st.v.(limit := VegasModel.NewLimit(st.v, r));
      At(st.(v := v, mutex := None, updates := st.updates + [Updated(s, n, r)]), t, Finished)
  }

  function Next(st: State, step: Step): State
    requires Enabled(st, step)
  {
    match step
    case Move(t) => Moved(st, t)
    case Return(t, op, rtt, end) =>
      var c := Call(st.threads[t].f, rtt, op == Drop, end);
      var s := st.(inFlight := st.inFlight - 1, calls := st.calls[t := c]);
      At(s, t, if op == Ignore then Finished else ToLoadSample(c))
    case SetMin(t, random) =>
      var pc := st.threads[t];
      var r := Reading(pc.rtt, pc.c.end, st.samples[pc.s].m.maxInFlight, false, 0, random);
      At(st.(v := WithMin(st.v, r)), t, ToLoadDrop(pc.c, pc.s, pc.n, r))
  }

  // ---- Tokens --------------------------------------------------------------------------------------

  ghost function Tokens(st: State): set<nat> {
    set t | t in st.threads && Outstanding(st.threads[t])
  }

  ghost predicate TokensInv(st: State) {
    st.inFlight == |Tokens(st)|
  }

  lemma TokensAfter(st: State, st': State, t: nat)
    requires t in st.threads && st'.threads.Keys == st.threads.Keys
    requires forall u | u in st.threads && u != t :: st'.threads[u] == st.threads[u]
    ensures Tokens(st') == if Outstanding(st'.threads[t]) then Tokens(st) + {t} else Tokens(st) - {t}
    ensures t in Tokens(st) <==> Outstanding(st.threads[t])
  {
  }

  lemma MoveInFlight(st: State, t: nat)
    requires Enabled(st, Move(t))
    ensures t in Moved(st, t).threads
    ensures var pc, pc' := st.threads[t], Moved(st, t).threads[t];
            && Outstanding(pc') == (pc.ToEnter? || pc.ToLoadLimit?) && (Outstanding(pc) ==> pc.ToLoadLimit?)
            && Moved(st, t).inFlight == st.inFlight + if pc.ToEnter? then 1 else 0
  {
    hide VegasModel.NewLimit, VegasModel.NewUpdateTime, WithMin, Quotient;
  }

  /** The counter goes up when a request enters and down when its callback is called. */
  lemma StepInFlight(st: State, step: Step)
    requires Enabled(st, step)
    ensures step.t in Next(st, step).threads
    ensures Next(st, step).inFlight == st.inFlight + (if Outstanding(Next(st, step).threads[step.t]) then 1 else 0)
                                                   - (if Outstanding(st.threads[step.t]) then 1 else 0)
  {
    hide Moved, WithMin;
    if step.Move? { MoveInFlight(st, step.t); }
  }

  lemma StepTokens(st: State, step: Step)
    requires TokensInv(st) && Enabled(st, step)
    ensures TokensInv(Next(st, step))
  {
    StepThreads(st, step);
    StepInFlight(st, step);
    TokensAfter(st, Next(st, step), step.t);
    assert step.t in st.threads;
    hide Next, Enabled, Tokens, Outstanding;
  }

  // ---- Mutual exclusion ----------------------------------------------------------------------------

  ghost predicate MutexInv(st: State) {
    && (st.mutex.Some? ==> st.mutex.value in st.threads)
    && forall t | t in st.threads :: HoldsMutex(st.threads[t]) <==> st.mutex == Some(t)
  }

  lemma StepMutex(st: State, step: Step)
    requires MutexInv(st) && Enabled(st, step)
    ensures MutexInv(Next(st, step))
  {
    hide VegasModel.NewLimit, VegasModel.NewUpdateTime, WithMin, Quotient;
  }

  // ---- Samples -------------------------------------------------------------------------------------

  /** The sum of the round trips of the listed calls. */
  ghost function Sum(calls: map<nat, Call>, log: seq<nat>): int
    requires forall t | t in log :: t in calls
  {
    if log == [] then 0 else Sum(calls, log[..|log| - 1]) + calls[log[|log| - 1]].rtt
  }

  ghost predicate CellInv(calls: map<nat, Call>, x: Cell) {
    && x.m.count == |x.counted|
    && (forall i, j | 0 <= i < j < |x.log| :: x.log[i] != x.log[j])
    && (forall t | t in x.counted :: t in x.log)
    && (forall t | t in x.log :: t in calls && calls[t].inFlight <= x.m.maxInFlight && (calls[t].drop ==> x.m.drop))
    && x.m.totalRTT == Sum(calls, x.log)
  }

  /** Not yet in any sample. */
  predicate Before(pc: Pc) {
    || pc.ToEnter? || Outstanding(pc) || pc.ToLoadSample?
    || pc.ToStoreDrop? || pc.ToLoadMax? || pc.ToSwapMax? || pc.ToAddTotal?
  }

  ghost predicate PcInv(st: State, t: nat, pc: Pc) {
    && (Before(pc) ==> forall s | 0 <= s < |st.samples| :: t !in st.samples[s].log)
    && (pc.ToEnter? || Outstanding(pc) <==> t !in st.calls)
    && (pc.ToLoadSample? ==> st.calls[t] == pc.c)
    && (HasSample(pc) ==>
          && pc.s < |st.samples| && st.calls[t] == pc.c
          && var x := st.samples[pc.s];
             && (pc.ToLoadMax? || pc.ToSwapMax? || pc.ToAddTotal? ==> pc.c.drop ==> x.m.drop)
             && (pc.ToAddTotal? ==> pc.c.inFlight <= x.m.maxInFlight)
             && (pc.ToSwapMax? ==> pc.max < pc.c.inFlight)
             && (pc.ToAddCount? ==> t in x.log && t !in x.counted)
             && (pc.ToLock? || pc.ToCompareSample? || pc.ToLoadCount? ==> x.m.count >= 16)
             && (pc.ToLoadTotal? ==> pc.n == |pc.seen| && pc.seen <= x.counted))
  }

  ghost predicate SamplesInv(st: State) {
    && st.samples != []
    && (forall s | 0 <= s < |st.samples| :: CellInv(st.calls, st.samples[s]))
    && (forall t | t in st.threads :: PcInv(st, t, st.threads[t]))
  }

  lemma {:induction false} SumFrame(calls: map<nat, Call>, calls': map<nat, Call>, log: seq<nat>)
    requires forall t | t in log :: t in calls && t in calls' && calls[t] == calls'[t]
    ensures Sum(calls, log) == Sum(calls', log)
  {
    if log != [] {
      assert log[|log| - 1] in log;
      SumFrame(calls, calls', log[..|log| - 1]);
    }
  }

  /** One of the four writes of a callback to its sample. */
  ghost predicate Written(calls: map<nat, Call>, x: Cell, x': Cell, t: nat) {
    && t in calls
    && var c := calls[t];
       || x' == x.(m := x.m.(drop := x.m.drop || c.drop))
       || (x.m.maxInFlight < c.inFlight && x' == x.(m := x.m.(maxInFlight := c.inFlight)))
       || (t !in x.log && c.inFlight <= x.m.maxInFlight && (c.drop ==> x.m.drop)
             && x' == x.(m := x.m.(totalRTT := x.m.totalRTT + c.rtt), log := x.log + [t]))
       || (t in x.log && t !in x.counted
             && x' == x.(m := x.m.(count := x.m.count + 1), counted := x.counted + {t}))
  }

  lemma WrittenInv(calls: map<nat, Call>, x: Cell, x': Cell, t: nat)
    requires CellInv(calls, x) && Written(calls, x, x', t)
    ensures CellInv(calls, x')
  {
    if x'.log != x.log {
      assert x'.log[..|x.log|] == x.log;
    }
  }

  /** Samples only grow: maximum, drop mark and entry count never go back, entries are never lost. */
  ghost predicate Grows(x: Cell, x': Cell, t: nat) {
    && x.m.maxInFlight <= x'.m.maxInFlight && (x.m.drop ==> x'.m.drop) && x.m.count <= x'.m.count
    && x.counted <= x'.counted && x.log <= x'.log
    && (forall u | u in x'.log :: u in x.log || u == t)
    && (forall u | u in x'.counted :: u in x.counted || u == t)
  }

  lemma WrittenGrows(calls: map<nat, Call>, x: Cell, x': Cell, t: nat)
    requires Written(calls, x, x', t)
    ensures Grows(x, x', t)
  {
  }

  /** What a step does to the calls: at most it adds its own. */
  lemma StepCalls(st: State, step: Step)
    requires Enabled(st, step) && PcInv(st, step.t, st.threads[step.t])
    ensures forall u | u in st.calls :: u in Next(st, step).calls && Next(st, step).calls[u] == st.calls[u]
    ensures forall u | u in Next(st, step).calls && u != step.t :: u in st.calls
  {
  }

  /** What a step does to the samples. */
  lemma StepWrites(st: State, step: Step)
    requires Enabled(st, step) && PcInv(st, step.t, st.threads[step.t])
    ensures var st' := Next(st, step);
            && |st.samples| <= |st'.samples| <= |st.samples| + 1
            && (|st.samples| < |st'.samples| ==> st'.samples[|st.samples|] == EMPTY)
            && (forall s | 0 <= s < |st.samples| ::
                  st'.samples[s] == st.samples[s] || Written(st'.calls, st.samples[s], st'.samples[s], step.t))
  {
  }

  lemma StepCells(st: State, step: Step)
    requires SamplesInv(st) && Enabled(st, step)
    ensures forall s | 0 <= s < |Next(st, step).samples| :: CellInv(Next(st, step).calls, Next(st, step).samples[s])
  {
    var st' := Next(st, step);
    assert PcInv(st, step.t, st.threads[step.t]);
    StepCalls(st, step);
    StepWrites(st, step);
    hide Next, Enabled, Written, PcInv;
    forall s | 0 <= s < |st'.samples| ensures CellInv(st'.calls, st'.samples[s]) {
      if s < |st.samples| {
        CallsFrame(st.calls, st'.calls, st.samples[s]);
        if st'.samples[s] != st.samples[s] { WrittenInv(st'.calls, st.samples[s], st'.samples[s], step.t); }
      }
    }
  }

  lemma CallsFrame(calls: map<nat, Call>, calls': map<nat, Call>, x: Cell)
    requires CellInv(calls, x)
    requires forall u | u in calls :: u in calls' && calls'[u] == calls[u]
    ensures CellInv(calls', x)
  {
    SumFrame(calls, calls', x.log);
  }

  /** A thread's invariant survives what another does. */
  lemma PcFrame(st: State, st': State, t: nat, pc: Pc, other: nat)
    requires PcInv(st, t, pc) && t != other && |st.samples| <= |st'.samples| <= |st.samples| + 1
    requires forall s | 0 <= s < |st.samples| :: Grows(st.samples[s], st'.samples[s], other)
    requires |st.samples| < |st'.samples| ==> st'.samples[|st.samples|] == EMPTY
    requires forall u | u in st.calls :: u in st'.calls && st'.calls[u] == st.calls[u]
    requires forall u | u in st'.calls && u != other :: u in st.calls
    ensures PcInv(st', t, pc)
  {
  }

  lemma OtherPc(st: State, step: Step, t: nat)
    requires SamplesInv(st) && Enabled(st, step) && t in st.threads && t != step.t
    ensures PcInv(Next(st, step), t, st.threads[t])
  {
    var st' := Next(st, step);
    assert PcInv(st, step.t, st.threads[step.t]) && PcInv(st, t, st.threads[t]);
    StepCalls(st, step);
    StepWrites(st, step);
    hide Next, Enabled, Written, CellInv, PcInv;
    forall s | 0 <= s < |st.samples| ensures Grows(st.samples[s], st'.samples[s], step.t) {
      if st'.samples[s] != st.samples[s] { WrittenGrows(st'.calls, st.samples[s], st'.samples[s], step.t); }
    }
    PcFrame(st, st', t, st.threads[t], step.t);
  }

  // What a request's own step does to what is known about it, by what it does.

  lemma OwnEntering(st: State, step: Step)
    requires Enabled(st, step) && PcInv(st, step.t, st.threads[step.t]) && st.samples != []
    requires var pc := st.threads[step.t]; pc.ToEnter? || Outstanding(pc)
    ensures PcInv(Next(st, step), step.t, Next(st, step).threads[step.t])
  {
    hide VegasModel.NewLimit, VegasModel.NewUpdateTime, WithMin, Quotient, CellInv;
  }

  lemma OwnLoadingSample(st: State, step: Step)
    requires Enabled(st, step) && PcInv(st, step.t, st.threads[step.t]) && st.samples != []
    requires var pc := st.threads[step.t]; pc.ToLoadSample?
    ensures PcInv(Next(st, step), step.t, Next(st, step).threads[step.t])
  {
    hide VegasModel.NewLimit, VegasModel.NewUpdateTime, WithMin, Quotient, CellInv;
  }

  lemma OwnStoringDrop(st: State, step: Step)
    requires Enabled(st, step) && PcInv(st, step.t, st.threads[step.t]) && st.samples != []
    requires var pc := st.threads[step.t]; pc.ToStoreDrop?
    ensures PcInv(Next(st, step), step.t, Next(st, step).threads[step.t])
  {
    hide VegasModel.NewLimit, VegasModel.NewUpdateTime, WithMin, Quotient, CellInv;
  }

  lemma OwnTakingMax(st: State, step: Step)
    requires Enabled(st, step) && PcInv(st, step.t, st.threads[step.t]) && st.samples != []
    requires var pc := st.threads[step.t]; pc.ToLoadMax? || pc.ToSwapMax?
    ensures PcInv(Next(st, step), step.t, Next(st, step).threads[step.t])
  {
    hide VegasModel.NewLimit, VegasModel.NewUpdateTime, WithMin, Quotient, CellInv;
  }

  lemma OwnAddingTotal(st: State, step: Step)
    requires Enabled(st, step) && PcInv(st, step.t, st.threads[step.t]) && st.samples != []
    requires var pc := st.threads[step.t]; pc.ToAddTotal?
    requires var s := st.threads[step.t].s; s < |st.samples| && CellInv(st.calls, st.samples[s])
    ensures PcInv(Next(st, step), step.t, Next(st, step).threads[step.t])
  {
    hide VegasModel.NewLimit, VegasModel.NewUpdateTime, WithMin, Quotient;
  }

  lemma OwnAddingCount(st: State, step: Step)
    requires Enabled(st, step) && PcInv(st, step.t, st.threads[step.t]) && st.samples != []
    requires var pc := st.threads[step.t]; pc.ToAddCount?
    requires var s := st.threads[step.t].s; s < |st.samples| && CellInv(st.calls, st.samples[s])
    ensures PcInv(Next(st, step), step.t, Next(st, step).threads[step.t])
  {
    hide VegasModel.NewLimit, VegasModel.NewUpdateTime, WithMin, Quotient;
  }

  lemma OwnChecking(st: State, step: Step)
    requires Enabled(st, step) && PcInv(st, step.t, st.threads[step.t]) && st.samples != []
    requires var pc := st.threads[step.t]; pc.ToCheckTime? || pc.ToCheckCount?
    ensures PcInv(Next(st, step), step.t, Next(st, step).threads[step.t])
  {
    hide VegasModel.NewLimit, VegasModel.NewUpdateTime, WithMin, Quotient, CellInv;
  }

  lemma OwnLocking(st: State, step: Step)
    requires Enabled(st, step) && PcInv(st, step.t, st.threads[step.t]) && st.samples != []
    requires var pc := st.threads[step.t]; pc.ToLock? || pc.ToCompareSample?
    ensures PcInv(Next(st, step), step.t, Next(st, step).threads[step.t])
  {
    hide VegasModel.NewLimit, VegasModel.NewUpdateTime, WithMin, Quotient, CellInv;
  }

  lemma OwnLoadingCount(st: State, step: Step)
    requires Enabled(st, step) && PcInv(st, step.t, st.threads[step.t]) && st.samples != []
    requires var pc := st.threads[step.t]; pc.ToLoadCount?
    requires var s := st.threads[step.t].s; s < |st.samples| && CellInv(st.calls, st.samples[s])
    ensures PcInv(Next(st, step), step.t, Next(st, step).threads[step.t])
  {
    hide VegasModel.NewLimit, VegasModel.NewUpdateTime, WithMin, Quotient;
  }

  lemma OwnLoadingTotal(st: State, step: Step)
    requires Enabled(st, step) && PcInv(st, step.t, st.threads[step.t]) && st.samples != []
    requires var pc := st.threads[step.t]; pc.ToLoadTotal?
    ensures PcInv(Next(st, step), step.t, Next(st, step).threads[step.t])
  {
    hide VegasModel.NewLimit, VegasModel.NewUpdateTime, WithMin, Quotient, CellInv;
  }

  lemma OwnUpdating(st: State, step: Step)
    requires Enabled(st, step) && PcInv(st, step.t, st.threads[step.t]) && st.samples != []
    requires var pc := st.threads[step.t];
             pc.ToSetTime? || pc.ToSetMin? || pc.ToLoadDrop? || pc.ToLoadFlight? || pc.ToSetLimit?
    ensures PcInv(Next(st, step), step.t, Next(st, step).threads[step.t])
  {
    hide VegasModel.NewLimit, VegasModel.NewUpdateTime, WithMin, Quotient, CellInv;
  }

  lemma OwnPc(st: State, step: Step)
    requires SamplesInv(st) && Enabled(st, step)
    ensures PcInv(Next(st, step), step.t, Next(st, step).threads[step.t])
  {
    hide SamplesInv, Next, PcInv, CellInv;
    OwnFacts(st, step);
    var pc := st.threads[step.t];
    if pc.ToEnter? || Outstanding(pc) {
      OwnEntering(st, step);
    } else if pc.ToLoadSample? {
      OwnLoadingSample(st, step);
    } else if pc.ToStoreDrop? {
      OwnStoringDrop(st, step);
    } else if pc.ToLoadMax? || pc.ToSwapMax? {
      OwnTakingMax(st, step);
    } else if pc.ToAddTotal? {
      OwnAddingTotal(st, step);
    } else if pc.ToAddCount? {
      OwnAddingCount(st, step);
    } else if pc.ToCheckTime? || pc.ToCheckCount? {
      OwnChecking(st, step);
    } else if pc.ToLock? || pc.ToCompareSample? {
      OwnLocking(st, step);
    } else if pc.ToLoadCount? {
      OwnLoadingCount(st, step);
    } else if pc.ToLoadTotal? {
      OwnLoadingTotal(st, step);
    } else {
      OwnUpdating(st, step);
    }
  }

  lemma OwnFacts(st: State, step: Step)
    requires SamplesInv(st) && Enabled(st, step)
    ensures PcInv(st, step.t, st.threads[step.t]) && st.samples != []
    ensures var pc := st.threads[step.t];
            HasSample(pc) ==> pc.s < |st.samples| && CellInv(st.calls, st.samples[pc.s])
  {
    hide CellInv;
  }

  lemma MoveThreads(st: State, t: nat)
    requires Enabled(st, Move(t))
    ensures Moved(st, t).threads == st.threads[t := Moved(st, t).threads[t]]
  {
    hide VegasModel.NewLimit, VegasModel.NewUpdateTime, WithMin, Quotient;
  }

  lemma StepThreads(st: State, step: Step)
    requires Enabled(st, step)
    ensures Next(st, step).threads.Keys == st.threads.Keys
    ensures forall t | t in st.threads && t != step.t :: Next(st, step).threads[t] == st.threads[t]
  {
    hide Moved;
    if step.Move? { MoveThreads(st, step.t); }
  }

  lemma StepSamples(st: State, step: Step)
    requires SamplesInv(st) && Enabled(st, step)
    ensures SamplesInv(Next(st, step))
  {
    var st' := Next(st, step);
    StepCells(st, step);
    assert PcInv(st, step.t, st.threads[step.t]);
    StepCalls(st, step);
    StepWrites(st, step);
    StepThreads(st, step);
    OwnPc(st, step);
    hide Next, Enabled, Written, PcInv, CellInv;
    forall t | t in st'.threads ensures PcInv(st', t, st'.threads[t]) {
      if t != step.t { OtherPc(st, step, t); }
    }
  }

  // ---- The control state and its updates -----------------------------------------------------------

  /** The request that updates the limit replaced the latest sample itself, so every earlier update used an
      older one. */
  ghost predicate UpdatesInv(st: State) {
    && st.samples != []
    && (forall i, j | 0 <= i < j < |st.updates| :: st.updates[i].s < st.updates[j].s)
    && (forall u | u in st.updates :: u.n >= 16 && u.s < |st.samples| - 1)
    && (forall t | t in st.threads && Updating(st.threads[t]) ::
          && st.threads[t].s == |st.samples| - 2
          && forall u | u in st.updates :: u.s < st.threads[t].s)
  }

  ghost predicate ControlInv(st: State) {
    && VegasModel.Inv(st.v)
    && forall t | t in st.threads :: ControlPc(st, st.threads[t])
  }

  ghost predicate ControlPc(st: State, pc: Pc) {
    && (pc.ToLoadTotal? || pc.ToSetTime? || pc.ToSetMin? || pc.ToLoadDrop? || pc.ToLoadFlight? || pc.ToSetLimit? ==>
          pc.n >= 16)
    && (pc.ToSetTime? || pc.ToSetMin? ==> 0 < pc.rtt)
    && (pc.ToLoadDrop? || pc.ToLoadFlight? || pc.ToSetLimit? ==> 0 < st.v.minRTT <= pc.r.lastRTT)
  }

  ghost predicate Inv(st: State) {
    TokensInv(st) && MutexInv(st) && SamplesInv(st) && UpdatesInv(st) && ControlInv(st)
  }

  /** Only the holder of the mutex touches the control state, the updates and the list of samples. */
  lemma OnlyHolderUpdates(st: State, step: Step)
    requires Enabled(st, step) && !HoldsMutex(st.threads[step.t])
    ensures var st' := Next(st, step); st'.v == st.v && st'.updates == st.updates && |st'.samples| == |st.samples|
  {
  }

  lemma StepControl(st: State, step: Step)
    requires Inv(st) && Enabled(st, step)
    ensures ControlInv(Next(st, step))
  {
    var st' := Next(st, step);
    var pc := st.threads[step.t];
    assert ControlPc(st, pc) && PcInv(st, step.t, pc);
    StepThreads(st, step);
    if !HoldsMutex(pc) {
      OnlyHolderUpdates(st, step);
      OwnControlFree(st, step);
    } else {
      HolderControl(st, step);
    }
    hide Next, Enabled, PcInv, TokensInv, SamplesInv, UpdatesInv;
    forall t | t in st'.threads ensures ControlPc(st', st'.threads[t]) {
      if t != step.t { assert ControlPc(st, st.threads[t]); }
    }
  }

  lemma OwnControlFree(st: State, step: Step)
    requires Enabled(st, step) && !HoldsMutex(st.threads[step.t])
    ensures ControlPc(Next(st, step), Next(st, step).threads[step.t])
  {
  }

  lemma HolderControl(st: State, step: Step)
    requires Enabled(st, step) && HoldsMutex(st.threads[step.t]) && VegasModel.Inv(st.v)
    requires ControlPc(st, st.threads[step.t]) && PcInv(st, step.t, st.threads[step.t])
    ensures VegasModel.Inv(Next(st, step).v) && ControlPc(Next(st, step), Next(st, step).threads[step.t])
  {
    var pc := st.threads[step.t];
    if pc.ToSetLimit? {
      LimitInRange(st.v, pc.r);
    }
  }

  lemma LimitInRange(v: Control, r: Reading)
    requires VegasModel.Inv(v)
    ensures InRange(VegasModel.NewLimit(v, r))
  {
    hide VegasModel.Moved;
    MovedBounds(v.limit, -1);
    MovedBounds(v.limit, Thresholds(v.limit, v.minRTT, r.lastRTT));
  }

  /** An update that is completed used a newer sample than those before. */
  lemma SettingUpdates(st: State, step: Step)
    requires MutexInv(st) && UpdatesInv(st) && Enabled(st, step) && st.threads[step.t].ToSetLimit?
             && ControlPc(st, st.threads[step.t])
    ensures UpdatesInv(Next(st, step))
  {
    hide VegasModel.NewLimit;
    var st' := Next(st, step);
    OnlyHolder(st, step.t);
    var u := st'.updates[|st.updates|];
    assert forall w | w in st'.updates :: w in st.updates || w == u;
  }

  lemma HolderUpdates(st: State, step: Step)
    requires MutexInv(st) && UpdatesInv(st) && Enabled(st, step) && HoldsMutex(st.threads[step.t])
             && ControlPc(st, st.threads[step.t])
    ensures UpdatesInv(Next(st, step))
  {
    hide VegasModel.NewLimit, VegasModel.NewUpdateTime, WithMin, Quotient, ControlPc, MutexInv;
    if st.threads[step.t].ToSetLimit? {
      SettingUpdates(st, step);
    } else {
      StepThreads(st, step);
      OnlyHolder(st, step.t);
    }
  }

  lemma StepUpdates(st: State, step: Step)
    requires Inv(st) && Enabled(st, step)
    ensures UpdatesInv(Next(st, step))
  {
    var st' := Next(st, step);
    var pc := st.threads[step.t];
    assert ControlPc(st, pc);
    if HoldsMutex(pc) {
      HolderUpdates(st, step);
    } else {
      StepThreads(st, step);
      OnlyHolderUpdates(st, step);
      NotYetUpdating(st, step);
      hide TokensInv, MutexInv, SamplesInv, ControlInv, Next, Enabled;
    }
  }

  lemma NotYetUpdating(st: State, step: Step)
    requires Enabled(st, step) && !HoldsMutex(st.threads[step.t])
    ensures !Updating(Next(st, step).threads[step.t])
  {
  }

  lemma StepInv(st: State, step: Step)
    requires Inv(st) && Enabled(st, step)
    ensures Inv(Next(st, step))
  {
    StepTokens(st, step);
    StepMutex(st, step);
    StepSamples(st, step);
    StepUpdates(st, step);
    StepControl(st, step);
    hide TokensInv, MutexInv, SamplesInv, UpdatesInv, ControlInv, Next, Enabled;
  }

  // ---- Runs ----------------------------------------------------------------------------------------

  const START := Control(MIN_LIMIT, 0, 0, 100)

  predicate Init(st: State) {
    && st.v == START && st.inFlight == 0 && st.samples == [EMPTY] && st.mutex == None
    && st.calls == map[] && st.updates == []
    && forall t | t in st.threads :: st.threads[t].ToEnter?
  }

  /** The state after the first `k` steps. A step that is not enabled has no place in a run. */
  function After(st: State, steps: seq<Step>, k: nat): State
    requires k <= |steps|
  {
    if k == 0 then st
    else
      var p := After(st, steps, k - 1);
      if Enabled(p, steps[k - 1]) then Next(p, steps[k - 1]) else p
  }

  ghost predicate IsRun(st: State, steps: seq<Step>) {
    forall k | 0 <= k < |steps| :: Enabled(After(st, steps, k), steps[k])
  }

  lemma InitInv(st: State)
    requires Init(st)
    ensures Inv(st)
  {
    assert Tokens(st) == {};
  }

  /** In every interleaving the in-flight counter is the number of tokens held, the limit stays in range,
      every sample is the sum of its entries, and each sample is used for at most one update. */
  lemma {:induction false} Safety(st: State, steps: seq<Step>, k: nat)
    requires Init(st) && IsRun(st, steps) && k <= |steps|
    ensures Inv(After(st, steps, k))
  {
    hide Inv, Next, Enabled;
    if k == 0 {
      InitInv(st);
    } else {
      Safety(st, steps, k - 1);
      assert Enabled(After(st, steps, k - 1), steps[k - 1]);
      StepInv(After(st, steps, k - 1), steps[k - 1]);
    }
  }

  /** A request waits for nothing but its callback and the mutex: no other guard of `Enabled` ever stops it.
      The random number of a probe reset is drawn below a positive bound. */
  lemma GuardsHold(st: State, t: nat)
    requires Inv(st) && t in st.threads
    ensures var pc := st.threads[t];
            if pc.ToReturn? || pc.Finished? then true
            else if pc.ToSetMin? then 0 < 3 * st.v.limit && Enabled(st, SetMin(t, 0))
            else if pc.ToLock? then st.mutex == None ==> Enabled(st, Move(t))
            else Enabled(st, Move(t))
  {
    assert PcInv(st, t, st.threads[t]) && ControlPc(st, st.threads[t]);
  }

  /** The mutex never ties the requests up: while any of them is inside its callback or `Acquire`, one can
      move. */
  lemma NoDeadlock(st: State, t: nat) returns (u: nat)
    requires Inv(st) && t in st.threads && !st.threads[t].ToReturn? && !st.threads[t].Finished?
    ensures Enabled(st, Move(u)) || Enabled(st, SetMin(u, 0))
  {
    u := if st.mutex.Some? then st.mutex.value else t;
    GuardsHold(st, u);
    hide Enabled, TokensInv, SamplesInv, UpdatesInv, ControlInv;
  }

  // ---- The updates are a run of the control law -----------------------------------------------------

  /** What the updates read, in order. */
  function Readings(us: seq<Updated>): (rs: seq<Reading>)
    ensures |rs| == |us|
  {
    seq(|us|, i requires 0 <= i < |us| => us[i].r)
  }

  /** How far the update of a request has got: `b` is the control state that it started from. */
  predicate Midway(b: Control, v: Control, pc: Pc)
    requires 0 <= b.limit
  {
    if pc.ToSetMin? then v == b.(updateTime := VegasModel.NewUpdateTime(pc.c.end, pc.rtt))
    else if pc.ToLoadDrop? || pc.ToLoadFlight? || pc.ToSetLimit? then
      && Possible(b, pc.r)
      && v == WithMin(b.(updateTime := VegasModel.NewUpdateTime(pc.r.end, pc.r.lastRTT)), pc.r)
    else v == b
  }

  /** The control state is that after all completed updates, advanced by what the holder of the mutex has
      done of the next one. */
  ghost predicate HistoryInv(st: State) {
    && Feasible(START, Readings(st.updates))
    && var b := Run(START, Readings(st.updates));
       && (st.mutex == None ==> st.v == b)
       && forall t | t in st.threads && HoldsMutex(st.threads[t]) :: Midway(b, st.v, st.threads[t])
  }

  /** A step of the holder: it gets on with its update, gives up before it changed anything, or completes
      it. */
  lemma HolderMidway(st: State, step: Step, b: Control)
    requires Enabled(st, step) && HoldsMutex(st.threads[step.t]) && VegasModel.Inv(b)
    requires ControlPc(st, st.threads[step.t]) && Midway(b, st.v, st.threads[step.t])
    ensures var st', pc := Next(st, step), st.threads[step.t];
            && step.t in st'.threads
            && if pc.ToSetLimit? then
                 && |st'.updates| == |st.updates| + 1 && st'.updates[..|st.updates|] == st.updates
                 && var r := st'.updates[|st.updates|].r;
                    Possible(b, r) && st'.v == Update(b, r) && !HoldsMutex(st'.threads[step.t])
               else
                 && st'.updates == st.updates
                 && (if HoldsMutex(st'.threads[step.t]) then Midway(b, st'.v, st'.threads[step.t]) else st'.v == b)
  {
    hide Quotient, VegasModel.NewUpdateTime, VegasModel.Thresholds, VegasModel.Moved;
  }

  lemma OneMoreUpdate(us: seq<Updated>, u: Updated)
    requires Feasible(START, Readings(us)) && Possible(Run(START, Readings(us)), u.r)
    ensures Feasible(START, Readings(us + [u]))
    ensures Run(START, Readings(us + [u])) == Update(Run(START, Readings(us)), u.r)
  {
    hide Update, Possible;
    var rs := Readings(us + [u]);
    assert rs[..|rs| - 1] == Readings(us);
  }

  lemma FreeMutex(st: State, step: Step)
    requires MutexInv(st) && Enabled(st, step) && !HoldsMutex(st.threads[step.t])
    ensures Next(st, step).mutex == None ==> st.mutex == None
    ensures step.t in Next(st, step).threads
    ensures HoldsMutex(Next(st, step).threads[step.t]) ==>
              st.mutex == None && Next(st, step).threads[step.t].ToCompareSample?
  {
    hide VegasModel.NewLimit, VegasModel.NewUpdateTime, WithMin, Quotient;
  }

  lemma OnlyHolder(st: State, t: nat)
    requires MutexInv(st) && t in st.threads && HoldsMutex(st.threads[t])
    ensures forall u | u in st.threads && u != t :: !HoldsMutex(st.threads[u])
  {
  }

  lemma StepHistory(st: State, step: Step)
    requires Inv(st) && Enabled(st, step) && HistoryInv(st)
    ensures HistoryInv(Next(st, step))
  {
    hide Inv, Next, Enabled, Midway, HoldsMutex, MutexInv, ControlPc, Feasible, Run, Readings;
    Parts(st, step);
    StepThreads(st, step);
    var st', b := Next(st, step), Run(START, Readings(st.updates));
    if HoldsMutex(st.threads[step.t]) {
      HolderMidway(st, step, b);
      OnlyHolder(st, step.t);
      StepMutexHeld(st, step);
      if st.threads[step.t].ToSetLimit? {
        var u := st'.updates[|st.updates|];
        assert st'.updates == st.updates + [u];
        OneMoreUpdate(st.updates, u);
      }
    } else {
      OnlyHolderUpdates(st, step);
      FreeMutex(st, step);
      NowComparing(b, st', step.t);
    }
  }

  lemma Parts(st: State, step: Step)
    requires Inv(st) && Enabled(st, step)
    ensures MutexInv(st) && step.t in st.threads && ControlPc(st, st.threads[step.t])
  {
    hide SamplesInv, UpdatesInv, TokensInv, MutexInv;
  }

  lemma NowComparing(b: Control, st: State, t: nat)
    requires 0 <= b.limit && t in st.threads
    ensures st.threads[t].ToCompareSample? && st.v == b ==> Midway(b, st.v, st.threads[t])
  {
  }

  lemma StepMutexHeld(st: State, step: Step)
    requires Enabled(st, step) && MutexInv(st) && HoldsMutex(st.threads[step.t])
    ensures var st' := Next(st, step);
            step.t in st'.threads && (st'.mutex == None <==> !HoldsMutex(st'.threads[step.t]))
  {
    hide VegasModel.NewLimit, VegasModel.NewUpdateTime, WithMin, Quotient;
  }

  lemma {:induction false} History(st: State, steps: seq<Step>, k: nat)
    requires Init(st) && IsRun(st, steps) && k <= |steps|
    ensures HistoryInv(After(st, steps, k))
  {
    hide Inv, Next, Enabled, Feasible, Run;
    if k == 0 {
      NoUpdates(st);
    } else {
      hide HistoryInv, Init;
      History(st, steps, k - 1);
      Safety(st, steps, k - 1);
      assert Enabled(After(st, steps, k - 1), steps[k - 1]);
      StepHistory(After(st, steps, k - 1), steps[k - 1]);
    }
  }

  lemma NoUpdates(st: State)
    requires Init(st)
    ensures HistoryInv(st)
  {
    assert Readings(st.updates) == [];
  }

  /** In every interleaving the limit is ruled by the control law: whenever the mutex is free, the control
      state is what a run of the law over the completed updates gives, so what is proved of such runs holds
      of it. In particular the minimum is the least round trip since the latest reset. */
  lemma UpdatesAreARun(st: State, steps: seq<Step>, k: nat)
    requires Init(st) && IsRun(st, steps) && k <= |steps| && After(st, steps, k).mutex == None
    ensures var p := After(st, steps, k);
            var rs := Readings(p.updates);
            && Feasible(START, rs) && p.v == Run(START, rs)
            && (rs != [] ==> p.v.minRTT == Least(rs[Origin(START, rs)..]))
  {
    hide After, Feasible, Run, Least, Origin;
    History(st, steps, k);
    var rs := Readings(After(st, steps, k).updates);
    if rs != [] { MinimumSinceReset(START, rs); }
  }

  /** From the start, the minimum is taken up anew with the first window of few requests from the hundredth on. */
  lemma FirstReset(us: seq<Updated>, j: nat)
    requires Feasible(START, Readings(us)) && j < |us| && forall i | 0 <= i < j :: !ResetAt(START, Readings(us), i)
    ensures ResetAt(START, Readings(us), j) <==> 100 <= j + 1 && LowAt(START, Readings(us), j)
  {
    hide ResetAt, LowAt, Feasible;
    FirstResetIff(START, Readings(us), j);
  }

  // ---- What the readers of a sample can rely on -------------------------------------------------------

  /** The sum of the round trips of those listed calls that are in `chosen`. */
  ghost function SumOf(calls: map<nat, Call>, log: seq<nat>, chosen: set<nat>): int
    requires forall t | t in log :: t in calls
  {
    if log == [] then 0
    else
      var last := log[|log| - 1];
      SumOf(calls, log[..|log| - 1], chosen) + if last in chosen then calls[last].rtt else 0
  }

  lemma {:induction false} PartOfSum(calls: map<nat, Call>, log: seq<nat>, chosen: set<nat>)
    requires forall t | t in log :: t in calls && 0 <= calls[t].rtt
    ensures 0 <= SumOf(calls, log, chosen) <= Sum(calls, log)
  {
    if log != [] {
      assert log[|log| - 1] in log;
      PartOfSum(calls, log[..|log| - 1], chosen);
    }
  }

  /** The mean a reader computes is never below that of the entries it counted: entries are added to the
      total before they are counted, and the count is read before the total. */
  lemma MeanNotBelowCounted(st: State, t: nat)
    requires Inv(st) && t in st.threads && st.threads[t].ToLoadTotal?
    requires forall u | u in st.calls :: 0 <= st.calls[u].rtt
    ensures var pc := st.threads[t];
            && pc.s < |st.samples| && 0 < pc.n == |pc.seen| && pc.seen <= st.samples[pc.s].counted
            && (forall u | u in st.samples[pc.s].log :: u in st.calls)
            && SumOf(st.calls, st.samples[pc.s].log, pc.seen) / pc.n <= Quotient(st.samples[pc.s].m.totalRTT, pc.n)
  {
    var pc := st.threads[t];
    assert PcInv(st, t, pc) && ControlPc(st, pc);
    var x := st.samples[pc.s];
    assert CellInv(st.calls, x);
    PartOfSum(st.calls, x.log, pc.seen);
    QuotientOrder(SumOf(st.calls, x.log, pc.seen), x.m.totalRTT, pc.n);
  }

  /** The recorded maximum never goes down, and covers every entry that was counted. */
  lemma MaximumCovers(st: State, step: Step, s: nat)
    requires Inv(st) && Enabled(st, step) && s < |st.samples|
    ensures s < |Next(st, step).samples|
    ensures st.samples[s].m.maxInFlight <= Next(st, step).samples[s].m.maxInFlight
    ensures forall t | t in st.samples[s].counted ::
              t in st.calls && st.calls[t].inFlight <= st.samples[s].m.maxInFlight
  {
    assert PcInv(st, step.t, st.threads[step.t]);
    StepCalls(st, step);
    StepWrites(st, step);
    assert CellInv(st.calls, st.samples[s]);
    hide Next, Enabled, Written;
    if Next(st, step).samples[s] != st.samples[s] {
      WrittenGrows(Next(st, step).calls, st.samples[s], Next(st, step).samples[s], step.t);
    }
  }

  /** No sample is used twice, none with fewer than 16 entries, and never the current one. */
  lemma UpdatedOnce(st: State, steps: seq<Step>, k: nat)
    requires Init(st) && IsRun(st, steps) && k <= |steps|
    ensures var p := After(st, steps, k);
            && (forall i, j | 0 <= i < j < |p.updates| :: p.updates[i].s != p.updates[j].s)
            && (forall i | 0 <= i < |p.updates| :: p.updates[i].n >= 16 && p.updates[i].s < |p.samples| - 1)
  {
    Safety(st, steps, k);
    var p := After(st, steps, k);
    forall i | 0 <= i < |p.updates| ensures p.updates[i].n >= 16 && p.updates[i].s < |p.samples| - 1 {
      assert p.updates[i] in p.updates;
    }
  }
}
