/**
 Runs of the limiter from its start: how the limit climbs to its greatest value, and how more requests than
 that come to run.
 */
module LimiterRuns {
  import opened Wrappers
  import opened VegasModel
  import opened Vegas
  import V = VegasMachine
  import R = VegasRuns
  import C = CoDelModel
  import opened LimiterMachine

  // ---- Reachable states ----------------------------------------------------------------------------

  /** What a step reads on the clock, in nanoseconds; the queue counts milliseconds. */
  predicate Stamped(step: Step, time: int) {
    match step
    case Complete(_, op, _, end) => op != Ignore ==> end == time
    case Push(_, _, now) => now == time / 1_000_000
    case Judge(_, now) => now == time / 1_000_000
    case _ => true
  }

  /** The steps happen one after another on one clock, which starts after zero and shows `now`. */
  ghost predicate Clocked(steps: seq<Step>, clock: seq<int>, now: int) {
    && |clock| == |steps|
    && (forall i, j | 0 <= i < j < |clock| :: clock[i] <= clock[j])
    && (forall i | 0 <= i < |clock| :: 0 < clock[i] <= now && Stamped(steps[i], clock[i]))
  }

  ghost predicate ReachedBy(s0: State, steps: seq<Step>, clock: seq<int>, s: State, now: int) {
    Init(s0) && IsRun(s0, steps) && s == After(s0, steps, |steps|) && Clocked(steps, clock, now)
  }

  /** A run on one clock leads here by `now`. */
  ghost predicate Reachable(s: State, now: int) {
    exists s0, steps, clock :: ReachedBy(s0, steps, clock, s, now)
  }

  lemma {:induction false} AfterPrefix(s: State, steps: seq<Step>, more: seq<Step>, k: nat)
    requires k <= |steps|
    ensures After(s, steps + more, k) == After(s, steps, k)
  {
    hide Next, Enabled;
    if 0 < k { AfterPrefix(s, steps, more, k - 1); }
  }

  lemma ReachInit(s: State, now: int)
    requires Init(s)
    ensures Reachable(s, now)
  {
    hide Init;
    var none: seq<Step> := [];
    assert IsRun(s, none) && s == After(s, none, |none|);
    assert ReachedBy(s, none, [], s, now);
  }

  lemma Later(s: State, now: int, later: int)
    requires Reachable(s, now) && now <= later
    ensures Reachable(s, later)
  {
    hide Init, IsRun, After;
    var s0, steps, clock :| ReachedBy(s0, steps, clock, s, now);
    assert ReachedBy(s0, steps, clock, s, later);
  }

  lemma RunOn(s0: State, steps: seq<Step>, step: Step)
    requires IsRun(s0, steps) && Enabled(After(s0, steps, |steps|), step)
    ensures IsRun(s0, steps + [step])
    ensures After(s0, steps + [step], |steps| + 1) == Next(After(s0, steps, |steps|), step)
  {
    hide Next, Enabled;
    var longer := steps + [step];
    forall k | 0 <= k <= |steps| ensures After(s0, longer, k) == After(s0, steps, k) {
      AfterPrefix(s0, steps, [step], k);
    }
  }

  lemma ClockOn(steps: seq<Step>, clock: seq<int>, step: Step, now: int)
    requires Clocked(steps, clock, now) && 0 < now && Stamped(step, now)
    ensures Clocked(steps + [step], clock + [now], now)
  {
    hide Stamped;
  }

  lemma ReachNext(s: State, step: Step, now: int)
    requires Reachable(s, now) && Enabled(s, step) && 0 < now && Stamped(step, now)
    ensures Reachable(Next(s, step), now)
  {
    hide Next, Enabled, Init, IsRun, After, Clocked, Stamped;
    var s0, steps, clock :| ReachedBy(s0, steps, clock, s, now);
    RunOn(s0, steps, step);
    ClockOn(steps, clock, step, now);
    assert ReachedBy(s0, steps + [step], clock + [now], Next(s, step), now);
  }

  lemma ReachableInv(s: State, now: int)
    requires Reachable(s, now)
    ensures LimiterMachine.Inv(s)
  {
    hide LimiterMachine.Inv, Next, Enabled, Init, IsRun, After, Clocked;
    var s0, steps, clock :| ReachedBy(s0, steps, clock, s, now);
    RunInv(s0, steps, |steps|);
  }

  /** What a callback does to the inner machine, the limiter does as well. */
  lemma {:induction false} Lifts(s: State, t: nat, steps: seq<V.Step>, st: V.State, now: int)
    requires Reachable(s, now) && 0 < now && R.Leads(t, s.vegas, steps, st)
    ensures Reachable(s.(vegas := st), now)
    decreases |steps|
  {
    hide Reachable, V.Next, V.Enabled;
    if steps != [] {
      var inner := Inner(steps[0]);
      assert !IsEntry(s, inner);
      ReachNext(s, inner, now);
      Lifts(Next(s, inner), t, steps[1..], st, now);
    }
  }

  // ---- What one request does when nobody interferes --------------------------------------------------

  /** It enters within the limit. */
  ghost function EnteredDirectly(s: State, t: nat): State {
    var f := s.vegas.inFlight + 1;
    s.(vegas := V.At(s.vegas.(inFlight := f), t, V.ToReturn(f, f <= s.vegas.v.limit)),
       excess := ExcessAfter(s, Inner(V.Move(t))))
  }

  lemma Enters(s: State, t: nat, now: int) returns (r: State)
    requires Reachable(s, now) && 0 < now && t in s.vegas.threads && s.vegas.threads[t].ToEnter?
    ensures Reachable(r, now) && r == EnteredDirectly(s, t)
  {
    hide Reachable, Completers;
    var f := s.vegas.inFlight + 1;
    var inner := Inner(V.Move(t));
    ReachNext(s, inner, now);
    var mid := Next(s, inner);
    ReachNext(mid, inner, now);
    r := Next(mid, inner);
    R.AtTwice(s.vegas.(inFlight := f), t, V.ToLoadLimit(f), V.ToReturn(f, f <= s.vegas.v.limit));
  }

  /** Its callback has been called, with a round trip of one. */
  function CallOf(f: int, end: int): V.Call {
    V.Call(f, 1, false, end)
  }

  function Returned(st: V.State, t: nat, f: int, end: int): V.State {
    var c := CallOf(f, end);
    V.At(st.(inFlight := st.inFlight - 1, calls := st.calls[t := c]), t, V.ToLoadSample(c))
  }

  ghost predicate CanCallBack(st: V.State) {
    && st.mutex == None && st.samples != [] && 0 <= st.samples[|st.samples| - 1].m.count
    && VegasModel.Inv(st.v)
  }

  /** The whole callback, from giving the token back. */
  function CalledBack(st: V.State, t: nat, f: int, end: int): V.State
    requires CanCallBack(st)
  {
    R.AfterCallback(Returned(st, t, f, end), t, CallOf(f, end), 0)
  }

  lemma Returns(st: V.State, t: nat, end: int)
    requires t in st.threads && st.threads[t].ToReturn?
    ensures V.Next(st, V.Return(t, Success, 1, end)) == Returned(st, t, st.threads[t].f, end)
  {
  }

  /** The callback is called one tick of the clock later, so that the round trip is one. */
  lemma Completes(s: State, t: nat, now: int) returns (r: State)
    requires Reachable(s, now) && 0 < now && t in s.vegas.threads && Runs(s.vegas.threads[t], StageOf(s, t))
    requires CanCallBack(s.vegas)
    ensures Reachable(r, now + 1)
    ensures r == s.(vegas := CalledBack(s.vegas, t, s.vegas.threads[t].f, now + 1),
                    stages := s.stages[t := Completing], completions := s.completions + 1)
  {
    hide Reachable, R.Leads, R.AfterCallback, V.Next;
    var f, end := s.vegas.threads[t].f, now + 1;
    Later(s, now, end);
    var step := Complete(t, Success, 1, end);
    ReachNext(s, step, end);
    var mid := Next(s, step);
    Returns(s.vegas, t, end);
    var steps := R.UninterruptedCallback(mid.vegas, t, CallOf(f, end), 0);
    Lifts(mid, t, steps, R.AfterCallback(mid.vegas, t, CallOf(f, end), 0), end);
    r := mid.(vegas := R.AfterCallback(mid.vegas, t, CallOf(f, end), 0));
  }

  /** Or it is called with nothing to report. */
  function Forgotten(st: V.State, t: nat, f: int): V.State {
    V.At(st.(inFlight := st.inFlight - 1, calls := st.calls[t := V.Call(f, 0, false, 0)]), t, V.Finished)
  }

  lemma CompletesIgnored(s: State, t: nat, now: int) returns (r: State)
    requires Reachable(s, now) && 0 < now && t in s.vegas.threads && Runs(s.vegas.threads[t], StageOf(s, t))
    ensures Reachable(r, now)
    ensures r == s.(vegas := Forgotten(s.vegas, t, s.vegas.threads[t].f),
                    stages := s.stages[t := Completing], completions := s.completions + 1)
  {
    hide Reachable;
    ReachNext(s, Complete(t, Ignore, 0, 0), now);
    r := Next(s, Complete(t, Ignore, 0, 0));
  }

  /** It waits in the queue, and a completion admits it. */
  ghost function AdmittedBy(s: State, t: nat, c: nat): State {
    EnteredDirectly(s, t).(stages := s.stages[t := Admitted][c := Over], admissions := s.admissions + 1)
  }

  const OPTION := C.Option(50, 500)

  lemma Waits(s: State, t: nat, now: int) returns (r: State)
    requires Reachable(s, now) && 0 < now && t in s.vegas.threads && s.vegas.threads[t].ToEnter? && t !in s.stages
    requires s.vegas.v.limit <= s.vegas.inFlight && s.queue == []
    ensures Reachable(r, now)
    ensures r == EnteredDirectly(s, t).(queue := [Packet(t, now / 1_000_000)], stages := s.stages[t := Listening(t)])
  {
    hide Reachable, Completers;
    r := Enters(s, t, now);
    ReachNext(r, Push(t, t, now / 1_000_000), now);
    r := Next(r, Push(t, t, now / 1_000_000));
    ReachNext(r, Listen(t), now);
    r := Next(r, Listen(t));
    assert s.stages[t := Queued(t)][t := Listening(t)] == s.stages[t := Listening(t)];
  }

  lemma Admits(s: State, c: nat, t: nat, now: int) returns (r: State)
    requires Reachable(s, now) && 0 < now && t in s.vegas.threads && StageOf(s, t) == Listening(t) && Pops(s, c)
    requires s.queue == [Packet(t, now / 1_000_000)] && s.codel == C.FRESH && s.option == OPTION
    ensures Reachable(r, now)
    ensures r == s.(queue := [], stages := s.stages[t := Admitted][c := Over], admissions := s.admissions + 1)
  {
    hide Reachable;
    ReachNext(s, Receive(c), now);
    r := Next(s, Receive(c));
    ReachNext(r, Judge(c, now / 1_000_000), now);
    r := Next(r, Judge(c, now / 1_000_000));
    ReachNext(r, Answer(c, Some(t)), now);
    r := Next(r, Answer(c, Some(t)));
    assert r.stages == s.stages[t := Admitted][c := Over];
  }

  lemma WaitsAndIsAdmitted(s: State, t: nat, c: nat, now: int) returns (r: State)
    requires Reachable(s, now) && 0 < now && t in s.vegas.threads && s.vegas.threads[t].ToEnter? && t !in s.stages
    requires s.vegas.v.limit <= s.vegas.inFlight && s.queue == [] && s.codel == C.FRESH && s.option == OPTION
    requires Pops(s, c)
    ensures Reachable(r, now) && r == AdmittedBy(s, t, c)
  {
    hide Reachable, Completers;
    r := Waits(s, t, now);
    r := Admits(r, c, t, now);
    assert s.stages[t := Listening(t)][t := Admitted][c := Over] == s.stages[t := Admitted][c := Over];
  }

  lemma Stops(s: State, t: nat, now: int) returns (r: State)
    requires Reachable(s, now) && 0 < now && Pops(s, t) && s.queue == []
    ensures Reachable(r, now) && r == Put(s, t, Over)
  {
    hide Reachable;
    ReachNext(s, Stop(t), now);
    r := Next(s, Stop(t));
  }

  // ---- One after another -----------------------------------------------------------------------------

  /** Nobody is midway: whoever holds a token runs, and the requests from `lo` to `hi` have not come yet. */
  ghost predicate Calm(s: State, lo: nat, hi: nat, now: int) {
    && 0 < now && Reachable(s, now) && CanCallBack(s.vegas) && s.vegas.v.minRTT <= 1
    && s.queue == [] && s.codel == C.FRESH && s.option == OPTION
    && HoldersRun(s) && Spare(s, lo, hi)
  }

  ghost predicate HoldersRun(s: State) {
    forall t | t in s.vegas.threads && V.Outstanding(s.vegas.threads[t]) :: Runs(s.vegas.threads[t], StageOf(s, t))
  }

  ghost predicate Spare(s: State, lo: nat, hi: nat) {
    forall t: nat | lo <= t < hi :: t in s.vegas.threads && s.vegas.threads[t].ToEnter? && t !in s.stages
  }

  /** Nobody but `t`, of those not in reserve, has moved. */
  ghost predicate OnlyChanged(s: State, r: State, t: nat, stage: Stage) {
    && t in s.vegas.threads && t in r.vegas.threads && r.vegas.threads == s.vegas.threads[t := r.vegas.threads[t]]
    && (r.stages == s.stages[t := stage] || (stage.Direct? && t !in s.stages && r.stages == s.stages))
  }

  lemma ChangeKeeps(s: State, r: State, t: nat, stage: Stage, lo: nat, hi: nat)
    requires OnlyChanged(s, r, t, stage) && HoldersRun(s) && Spare(s, lo, hi) && (t < lo || hi <= t)
    requires V.Outstanding(r.vegas.threads[t]) ==> Runs(r.vegas.threads[t], stage)
    ensures HoldersRun(r) && Spare(r, lo, hi) && OnlyMoved(s, r, t) && StageOf(r, t) == stage
  {
    hide Runs, V.Outstanding;
  }

  lemma NextSpare(s: State, lo: nat, hi: nat)
    requires Spare(s, lo, hi) && lo < hi
    ensures lo in s.vegas.threads && s.vegas.threads[lo].ToEnter? && lo !in s.stages && Spare(s, lo + 1, hi)
  {
  }

  /** The next request enters and runs. */
  lemma EntersCalmly(s: State, lo: nat, hi: nat, now: int) returns (r: State)
    requires Calm(s, lo, hi, now) && lo < hi && s.vegas.inFlight < s.vegas.v.limit
    ensures Calm(r, lo + 1, hi, now) && r == EnteredDirectly(s, lo)
    ensures |Completers(r)| == |Completers(s)|
    ensures lo in r.vegas.threads && r.vegas.threads[lo] == V.ToReturn(s.vegas.inFlight + 1, true)
    ensures StageOf(r, lo).Direct?
  {
    hide Reachable, Completers, Admissibles, HoldersRun, Spare;
    NextSpare(s, lo, hi);
    r := Enters(s, lo, now);
    ChangeKeeps(s, r, lo, Direct, lo + 1, hi);
    MoveOne(s, r, lo);
  }

  lemma CallbackFrame(st: V.State, t: nat, c: V.Call)
    requires CanCallBack(st)
    ensures var after := R.AfterCallback(st, t, c, 0);
            after.threads == st.threads[t := V.Finished] && after.inFlight == st.inFlight && after.mutex == None
  {
    hide Update, MeanRTT, R.Entered;
  }

  /** A callback that makes fewer than 16 entries adds its entry and no more. */
  lemma CallbackEarly(st: V.State, t: nat, c: V.Call)
    requires CanCallBack(st) && st.samples[|st.samples| - 1].m.count + 1 < 16
    ensures var after := R.AfterCallback(st, t, c, 0);
            && after.v == st.v && |after.samples| == |st.samples|
            && after.samples[|st.samples| - 1] == R.Entered(st.samples[|st.samples| - 1], t, c)
  {
    hide Update, MeanRTT;
  }

  /** The next request enters, runs, and its callback is one of the first 15 of the window. */
  lemma VisitsEarly(s: State, lo: nat, hi: nat, now: int) returns (r: State)
    requires Calm(s, lo, hi, now) && lo < hi && s.vegas.inFlight < s.vegas.v.limit && LastOf(s).count < 15
    ensures Calm(r, lo + 1, hi, now + 1) && Pops(r, lo)
    ensures r.vegas.v == s.vegas.v && r.vegas.inFlight == s.vegas.inFlight
    ensures r.excess == ExcessAfter(s, Inner(V.Move(lo))) && |Completers(r)| == |Completers(s)| + 1
    ensures LastOf(r) == Added(LastOf(s), 1, s.vegas.inFlight + 1, false)
  {
    hide Reachable, Completers, Admissibles, HoldersRun, Spare, R.AfterCallback;
    NextSpare(s, lo, hi);
    var mid := EntersCalmly(s, lo, hi, now);
    var f, end := s.vegas.inFlight + 1, now + 1;
    r := Completes(mid, lo, now);
    var st := Returned(mid.vegas, lo, f, end);
    CallbackFrame(st, lo, CallOf(f, end));
    CallbackEarly(st, lo, CallOf(f, end));
    ChangeKeeps(mid, r, lo, Completing, lo + 1, hi);
    MoveOne(mid, r, lo);
  }

  /** The next request enters, runs, and its callback has nothing to report. */
  lemma VisitsIgnored(s: State, lo: nat, hi: nat, now: int) returns (r: State)
    requires Calm(s, lo, hi, now) && lo < hi && s.vegas.inFlight < s.vegas.v.limit
    ensures Calm(r, lo + 1, hi, now) && Pops(r, lo)
    ensures r.vegas.v == s.vegas.v && r.vegas.inFlight == s.vegas.inFlight
    ensures r.stages == s.stages[lo := Completing]
    ensures forall t | t in s.vegas.threads && t != lo ::
              t in r.vegas.threads && r.vegas.threads[t] == s.vegas.threads[t]
    ensures r.excess == ExcessAfter(s, Inner(V.Move(lo))) && |Completers(r)| == |Completers(s)| + 1
  {
    hide Reachable, Completers, Admissibles, HoldersRun, Spare;
    NextSpare(s, lo, hi);
    var mid := EntersCalmly(s, lo, hi, now);
    r := CompletesIgnored(mid, lo, now);
    ChangeKeeps(mid, r, lo, Completing, lo + 1, hi);
    MoveOne(mid, r, lo);
  }

  ghost function LastOf(s: State): Measured
    requires s.vegas.samples != []
  {
    s.vegas.samples[|s.vegas.samples| - 1].m
  }

  /** A completion finds the queue empty. */
  lemma StopsCalmly(s: State, lo: nat, hi: nat, t: nat, now: int) returns (r: State)
    requires Calm(s, lo, hi, now) && Pops(s, t) && t < lo
    ensures Calm(r, lo, hi, now) && r == Put(s, t, Over) && |Completers(r)| == |Completers(s)| - 1
  {
    hide Reachable, Completers, Admissibles, HoldersRun, Spare;
    r := Stops(s, t, now);
    ChangeKeeps(s, r, t, Over, lo, hi);
    MoveOne(s, r, t);
  }

  // ---- The climb -------------------------------------------------------------------------------------

  /** The 16th entry, after the update time, makes the update. */
  lemma CallbackLate(st: V.State, t: nat, c: V.Call)
    requires CanCallBack(st) && st.v.updateTime < c.end
    requires var m := Added(st.samples[|st.samples| - 1].m, c.rtt, c.inFlight, c.drop); m.count >= 16 && 0 < MeanRTT(m)
    ensures var m := Added(st.samples[|st.samples| - 1].m, c.rtt, c.inFlight, c.drop);
            var after := R.AfterCallback(st, t, c, 0);
            && after.v == Update(st.v, R.ReadingOf(m, c.end, 0))
            && after.samples != [] && after.samples[|after.samples| - 1] == V.EMPTY
  {
    hide Update, MeanRTT, Added;
  }

  lemma MeanOfOnes(m: Measured, f: int)
    requires m.count == 15 && m.totalRTT == 15
    ensures Added(m, 1, f, false).count == 16 && MeanRTT(Added(m, 1, f, false)) == 1
    ensures f <= Added(m, 1, f, false).maxInFlight
  {
  }

  /** A window of such entries raises the limit. */
  lemma WindowRaises(v: Control, r: Reading)
    requires VegasModel.Inv(v) && v.minRTT <= 1 && r.lastRTT == 1 && r.random == 0 && !r.drop
             && v.limit <= r.flightForLimit
    ensures var u := Update(v, r); VegasModel.Inv(u) && u.minRTT <= 1 && u.limit == Moved(v.limit, 6)
  {
    hide Update, WithMin, Moved;
    UpdateKeeps(v, r);
    NoQueue(v, r);
    Grows(v, r);
  }

  /** The next request enters last within the limit, runs, and its callback is the 16th of the window. */
  lemma VisitsLate(s: State, lo: nat, hi: nat, now: int) returns (r: State)
    requires Calm(s, lo, hi, now) && lo < hi && s.vegas.inFlight + 1 == s.vegas.v.limit
    requires s.vegas.v.updateTime <= now
    requires LastOf(s).count == 15 && LastOf(s).totalRTT == 15 && !LastOf(s).drop
    ensures Calm(r, lo + 1, hi, now + 1) && Pops(r, lo)
    ensures r.vegas.v.limit == Moved(s.vegas.v.limit, 6) && r.vegas.inFlight == s.vegas.inFlight
    ensures r.excess == ExcessAfter(s, Inner(V.Move(lo))) && |Completers(r)| == |Completers(s)| + 1
    ensures LastOf(r) == NOTHING
  {
    hide Reachable, Completers, Admissibles, HoldersRun, Spare, R.AfterCallback, Update, Moved, MeanRTT;
    NextSpare(s, lo, hi);
    var mid := EntersCalmly(s, lo, hi, now);
    var f, end := s.vegas.inFlight + 1, now + 1;
    r := Completes(mid, lo, now);
    var st := Returned(mid.vegas, lo, f, end);
    MeanOfOnes(LastOf(s), f);
    CallbackFrame(st, lo, CallOf(f, end));
    CallbackLate(st, lo, CallOf(f, end));
    WindowRaises(s.vegas.v, R.ReadingOf(Added(LastOf(s), 1, f, false), end, 0));
    ChangeKeeps(mid, r, lo, Completing, lo + 1, hi);
    MoveOne(mid, r, lo);
  }

  /** One request less than the limit runs, nobody else is there, and the sample has `k` entries. */
  ghost predicate Ready(s: State, lo: nat, hi: nat, k: nat, now: int) {
    && Calm(s, lo, hi, now) && s.vegas.inFlight + 1 == s.vegas.v.limit
    && |Completers(s)| == 0 && s.excess == 0
    && LastOf(s).count == k && LastOf(s).totalRTT == k && !LastOf(s).drop
  }

  lemma {:induction false} FifteenVisits(s: State, lo: nat, hi: nat, k: nat, now: int) returns (r: State)
    requires Ready(s, lo, hi, k, now) && k <= 15 && lo + 15 - k <= hi
    ensures Ready(r, lo + 15 - k, hi, 15, now + 15 - k) && r.vegas.v.limit == s.vegas.v.limit
    decreases 15 - k
  {
    hide Calm, Completers;
    if k == 15 {
      r := s;
    } else {
      CalmLimit(s, lo, hi, now);
      r := VisitsEarly(s, lo, hi, now);
      r := StopsCalmly(r, lo + 1, hi, lo, now + 1);
      CalmLimit(r, lo + 1, hi, now + 1);
      r := FifteenVisits(r, lo + 1, hi, k + 1, now + 1);
    }
  }

  lemma CalmLimit(s: State, lo: nat, hi: nat, now: int)
    requires Calm(s, lo, hi, now)
    ensures InRange(s.vegas.v.limit) && s.queue == [] && CanCallBack(s.vegas)
  {
    hide Reachable, HoldersRun, Spare;
  }

  lemma SpareFewer(s: State, lo: nat, hi: nat, hi': nat, now: int)
    requires Calm(s, lo, hi, now) && hi' <= hi
    ensures Calm(s, lo, hi', now)
  {
    hide Reachable, HoldersRun;
  }

  /** An entry within the limit while nobody is half done adds no excess. */
  lemma NoExcess(s: State, t: nat)
    requires |Completers(s)| == 0 && s.excess == 0 && s.vegas.inFlight < MAX_LIMIT
    ensures ExcessAfter(s, Inner(V.Move(t))) == 0
  {
    hide Completers;
  }

  /** Requests enter until there is room for one more only. */
  lemma {:induction false} Fills(s: State, lo: nat, hi: nat, now: int) returns (r: State, lo': nat)
    requires Calm(s, lo, hi, now) && |Completers(s)| == 0 && s.excess == 0 && LastOf(s) == NOTHING
    requires s.vegas.inFlight < s.vegas.v.limit && lo + s.vegas.v.limit - 1 - s.vegas.inFlight <= hi
    ensures lo' == lo + s.vegas.v.limit - 1 - s.vegas.inFlight
    ensures Ready(r, lo', hi, 0, now) && r.vegas.v.limit == s.vegas.v.limit
    decreases s.vegas.v.limit - s.vegas.inFlight
  {
    hide Calm, Completers, EnteredDirectly;
    CalmLimit(s, lo, hi, now);
    if s.vegas.inFlight + 1 == s.vegas.v.limit {
      r, lo' := s, lo;
    } else {
      NoExcess(s, lo);
      EnteredFrame(s, lo);
      r := EntersCalmly(s, lo, hi, now);
      r, lo' := Fills(r, lo + 1, hi, now);
    }
  }

  lemma EnteredFrame(s: State, t: nat)
    ensures var r := EnteredDirectly(s, t);
            && r.vegas.v == s.vegas.v && r.vegas.inFlight == s.vegas.inFlight + 1 && r.vegas.samples == s.vegas.samples
            && r.excess == ExcessAfter(s, Inner(V.Move(t))) && r.stages == s.stages
  {
  }

  /** The last entry of the window, and the requests that the new limit lets in. */
  lemma RaisesOnce(s: State, lo: nat, hi: nat, now: int) returns (r: State, lo': nat, later: int)
    requires Ready(s, lo, hi, 15, now) && lo + 1 + MAX_LIMIT <= hi
    ensures lo' <= lo + 1 + MAX_LIMIT && Ready(r, lo', hi, 0, later)
    ensures r.vegas.v.limit == Moved(s.vegas.v.limit, 6)
  {
    hide Calm, Completers, Moved;
    CalmLimit(s, lo, hi, now);
    RaisedByEight(s.vegas.v.limit);
    NoExcess(s, lo);
    var time := if now < s.vegas.v.updateTime then s.vegas.v.updateTime else now;
    CalmLater(s, lo, hi, now, time);
    later := time + 1;
    r := VisitsLate(s, lo, hi, time);
    CalmLimit(r, lo + 1, hi, later);
    r := StopsCalmly(r, lo + 1, hi, lo, later);
    r, lo' := Fills(r, lo + 1, hi, later);
  }

  /** Time passes. */
  lemma CalmLater(s: State, lo: nat, hi: nat, now: int, later: int)
    requires Calm(s, lo, hi, now) && now <= later
    ensures Calm(s, lo, hi, later)
  {
    hide Reachable, HoldersRun, Spare;
    Later(s, now, later);
  }

  function Newcomers(n: nat): (m: map<nat, V.Pc>)
    ensures forall t: nat | t < n :: t in m
    ensures forall t | t in m :: m[t] == V.ToEnter
  {
    if n == 0 then map[] else Newcomers(n - 1)[n - 1 := V.ToEnter]
  }

  lemma Starts(n: nat) returns (s: State)
    ensures Calm(s, 0, n, 1) && s.vegas.inFlight == 0 && s.vegas.v.limit == MIN_LIMIT
    ensures |Completers(s)| == 0 && s.excess == 0 && LastOf(s) == NOTHING
  {
    var st := V.State.State(V.START, 0, [V.EMPTY], None, Newcomers(n), map[], []);
    s := State.State(OPTION, st, [], C.FRESH, map[], 0, 0, 0);
    ReachInit(s, 1);
    hide Reachable;
    assert Completers(s) == {};
  }

  /** After `w` windows the limit has risen by `8 w`, or all the way. */
  lemma {:induction false} Climbs(w: nat, spare: nat) returns (s: State, lo: nat, now: int)
    ensures Ready(s, lo, lo + spare, 0, now)
    ensures s.vegas.v.limit == MAX_LIMIT || MIN_LIMIT + 8 * w <= s.vegas.v.limit
  {
    hide Ready, Calm, Completers, Moved, LastOf;
    if w == 0 {
      s := Starts(spare + 7);
      s, lo := Fills(s, 0, spare + 7, 1);
      now := 1;
    } else {
      s, lo, now := Climbs(w - 1, spare + 16 + MAX_LIMIT);
      var hi, limit := lo + spare + 16 + MAX_LIMIT, s.vegas.v.limit;
      ReadyLimit(s, lo, hi, 0, now);
      RaisedByEight(limit);
      s := FifteenVisits(s, lo, hi, 0, now);
      s, lo, now := RaisesOnce(s, lo + 15, hi, now + 15);
      ReadyFewer(s, lo, hi, lo + spare, now);
    }
  }

  lemma ReadyLimit(s: State, lo: nat, hi: nat, k: nat, now: int)
    requires Ready(s, lo, hi, k, now)
    ensures InRange(s.vegas.v.limit)
  {
    hide Calm;
    CalmLimit(s, lo, hi, now);
  }

  lemma ReadyFewer(s: State, lo: nat, hi: nat, hi': nat, now: int)
    requires Ready(s, lo, hi, 0, now) && hi' <= hi
    ensures Ready(s, lo, hi', 0, now)
  {
    hide Calm;
    SpareFewer(s, lo, hi, hi', now);
  }

  // ---- The crowd -------------------------------------------------------------------------------------

  /** The requests from `a` to `b`, and no others, have given their token back and are about to pop. */
  ghost predicate Popping(s: State, a: nat, b: nat) {
    && a <= b && |Completers(s)| == b - a
    && forall t: nat | a <= t < b :: Pops(s, t)
  }

  /** `n` requests come one after another, each completes, but none of them gets to pop the queue. */
  lemma {:induction false} Linger(s: State, lo: nat, hi: nat, n: nat, now: int) returns (r: State)
    requires Calm(s, lo, hi, now) && lo + n <= hi && s.vegas.inFlight + 1 == s.vegas.v.limit == MAX_LIMIT
    requires |Completers(s)| == 0 && s.excess == 0
    ensures Calm(r, lo + n, hi, now) && r.vegas.inFlight + 1 == r.vegas.v.limit == MAX_LIMIT
    ensures Popping(r, lo, lo + n) && 0 <= r.excess <= n
  {
    hide Calm, Completers;
    if n == 0 {
      r := s;
    } else {
      r := Linger(s, lo, hi, n - 1, now);
      var mid := r;
      r := VisitsIgnored(mid, lo + n - 1, hi, now);
      forall t: nat | lo <= t < lo + n ensures Pops(r, t) {
        if t < lo + n - 1 { assert Pops(mid, t); }
      }
    }
  }

  /** As many come, find the limit reached, wait, and are admitted by those. */
  lemma {:induction false} AllAdmitted(s: State, a: nat, b: nat, lo: nat, hi: nat, now: int) returns (r: State)
    requires Calm(s, lo, hi, now) && Popping(s, a, b) && b <= lo && lo + (b - a) <= hi
    requires MAX_LIMIT <= s.vegas.inFlight
    ensures Calm(r, lo + (b - a), hi, now) && r.vegas.inFlight == s.vegas.inFlight + (b - a) && r.excess == s.excess
    decreases b - a
  {
    hide Calm, Completers;
    if a == b {
      r := s;
    } else {
      r := OneAdmitted(s, a, b, lo, hi, now);
      r := AllAdmitted(r, a + 1, b, lo + 1, hi, now);
    }
  }

  lemma OneAdmitted(s: State, a: nat, b: nat, lo: nat, hi: nat, now: int) returns (r: State)
    requires Calm(s, lo, hi, now) && Popping(s, a, b) && a < b <= lo < hi && MAX_LIMIT <= s.vegas.inFlight
    ensures Calm(r, lo + 1, hi, now) && Popping(r, a + 1, b)
    ensures r.vegas.inFlight == s.vegas.inFlight + 1 && r.excess == s.excess
  {
    hide Reachable, Completers, Admissibles, HoldersRun, Spare;
    CalmLimit(s, lo, hi, now);
    NextSpare(s, lo, hi);
    assert Pops(s, a);
    r := WaitsAndIsAdmitted(s, lo, a, now);
    var mid := r.(stages := s.stages[lo := Admitted]);
    ChangeKeeps(s, mid, lo, Admitted, lo + 1, hi);
    ChangeKeeps(mid, r, a, Over, lo + 1, hi);
    MoveOne(s, mid, lo);
    MoveOne(mid, r, a);
    forall t: nat | a + 1 <= t < b ensures Pops(r, t) {
      assert Pops(s, t);
    }
  }

  /** The bound on running requests is exact: for every `n` there is a run from the start, on one clock, in which
      the limit first climbs to 2048, whose excess is `n` and in which 2048 + `n` requests run. */
  lemma MoreThanMaxCanRun(n: nat) returns (s: State, now: int)
    ensures Reachable(s, now) && s.excess == n && |RunningOnes(s)| == MAX_LIMIT + n
  {
    hide Reachable, Calm, Completers, RunningOnes, Ready, EnteredDirectly;
    var lo: nat;
    s, lo, now := Climbs(255, 2 * n + 1);
    var hi := lo + 2 * n + 1;
    ReadyCalm(s, lo, hi, now);
    s := Linger(s, lo, hi, n, now);
    var crowd := s;
    EnteredFrame(crowd, lo + n);
    CalmSpare(crowd, lo + n, hi, now);
    s := EntersCalmly(crowd, lo + n, hi, now);
    EntryExcess(crowd, lo + n, n);
    PoppingStays(crowd, s, lo, lo + n);
    s := AllAdmitted(s, lo, lo + n, lo + n + 1, hi, now);
    AllRun(s, hi, hi, now);
  }

  lemma CalmSpare(s: State, lo: nat, hi: nat, now: int)
    requires Calm(s, lo, hi, now) && lo < hi
    ensures lo in s.vegas.threads && s.vegas.threads[lo].ToEnter?
  {
    hide Reachable, HoldersRun;
  }

  lemma ReadyCalm(s: State, lo: nat, hi: nat, now: int)
    requires Ready(s, lo, hi, 0, now)
    ensures Calm(s, lo, hi, now) && s.vegas.inFlight + 1 == s.vegas.v.limit && |Completers(s)| == 0 && s.excess == 0
    ensures InRange(s.vegas.v.limit)
  {
    hide Calm;
    CalmLimit(s, lo, hi, now);
  }

  lemma EntryExcess(s: State, t: nat, n: nat)
    requires s.vegas.inFlight + 1 == MAX_LIMIT && |Completers(s)| == n && s.excess <= n
    ensures ExcessAfter(s, Inner(V.Move(t))) <= n
  {
    hide Completers;
  }

  lemma PoppingStays(s: State, r: State, a: nat, b: nat)
    requires Popping(s, a, b) && b in s.vegas.threads && s.vegas.threads[b].ToEnter? && r == EnteredDirectly(s, b)
    requires |Completers(r)| == |Completers(s)|
    ensures Popping(r, a, b)
  {
    hide Completers;
    forall t: nat | a <= t < b ensures Pops(r, t) {
      assert Pops(s, t);
    }
  }

  /** Whoever holds a token runs, so 2048 and the excess cannot be fewer than the tokens. */
  lemma AllRun(s: State, lo: nat, hi: nat, now: int)
    requires Calm(s, lo, hi, now)
    ensures Reachable(s, now) && |RunningOnes(s)| == s.vegas.inFlight <= MAX_LIMIT + s.excess
  {
    hide V.MutexInv, V.SamplesInv, V.UpdatesInv, V.ControlInv;
    ReachableInv(s, now);
    InvMeans(s);
    assert RunningOnes(s) == V.Tokens(s.vegas);
  }
}
