/**
 The limiter under concurrency: requests enter, run at once or wait in the queue, and every completion
 gives its token back and then pops the queue. The atomic steps of `Acquire` and of the callback are those
 of VegasMachine, so the limit that a request reads is the one that the completions before it have set.
 Which drop channel the pool hands out is left to the surroundings, so that two requests may hold the same
 one.
 */
module LimiterMachine {
  import opened Wrappers
  import opened VegasModel
  import opened Vegas
  import V = VegasMachine
  import C = CoDelModel
  import opened CoDel

  datatype Packet = Packet(ch: nat, timestamp: int)

  /** Where a request is outside of `Acquire` and its callback. */
  datatype Stage =
    | Direct                             // the queue has had nothing to do with it
    | Queued(ch: nat)                    // its packet is in the queue
    | Listening(ch: nat)                 // in its select
    | Rejected                           // has to give its token back
    | Admitted                           // runs, by way of the queue
    | Completing                         // in its callback, or about to receive from the queue
    | Holding(p: Packet)                 // received a packet
    | Answering(p: Packet, drop: bool)   // judged it
    | Over

  /** While dropping, something has been counted: judging needs that, and keeps it. */
  type DropState = q: C.Queue | q.dropping ==> 1 <= q.count witness C.FRESH

  datatype State = State(
    option: C.Option, vegas: V.State, queue: seq<Packet>, codel: DropState, stages: map<nat, Stage>,
    admissions: nat, completions: nat, excess: int)

  datatype Step =
    | Inner(step: V.Step)                                    // of `Acquire`, or inside a callback
    | Complete(t: nat, op: Operation, rtt: int, end: int)    // the callback of a running request is called
    | GiveBack(t: nat)                                       // that of a rejected one
    | Push(t: nat, ch: nat, now: int)
    | Listen(t: nat)
    | Expire(t: nat)
    | Receive(t: nat)
    | Judge(t: nat, now: int)
    | Answer(t: nat, receiver: Option<nat>)
    | Stop(t: nat)                                           // the queue is found empty

  // ---- Who is where --------------------------------------------------------------------------------

  function StageOf(s: State, t: nat): Stage {
    if t in s.stages then s.stages[t] else Direct
  }

  predicate Runs(pc: V.Pc, stage: Stage) {
    pc.ToReturn? && (stage.Admitted? || (stage.Direct? && pc.success))
  }

  /** Running, or sure to run unless the limit has fallen. */
  predicate Admissible(pc: V.Pc, stage: Stage) {
    Runs(pc, stage) || (pc.ToLoadLimit? && pc.f <= MAX_LIMIT)
  }

  /** The token is given back, but the queue is not popped yet. */
  predicate HalfDone(stage: Stage) {
    stage.Completing? || stage.Holding? || stage.Answering?
  }

  ghost function RunningOnes(s: State): set<nat> {
    set t | t in s.vegas.threads && Runs(s.vegas.threads[t], StageOf(s, t))
  }

  ghost function Admissibles(s: State): set<nat> {
    set t | t in s.vegas.threads && Admissible(s.vegas.threads[t], StageOf(s, t))
  }

  ghost function Completers(s: State): set<nat> {
    set t | t in s.vegas.threads && HalfDone(StageOf(s, t))
  }

  // ---- Steps ---------------------------------------------------------------------------------------

  /** A send that does not block reaches a request in its select on that channel, if there is one. */
  predicate Reaches(s: State, ch: nat, receiver: Option<nat>) {
    match receiver
    case Some(w) => w in s.vegas.threads && StageOf(s, w) == Listening(ch)
    case None => forall w | w in s.stages :: s.stages[w] != Listening(ch)
  }

  predicate Enabled(s: State, step: Step) {
    match step
    case Inner(inner) => V.Enabled(s.vegas, inner) && !inner.Return?
    case Complete(t, _, _, _) => t in s.vegas.threads && Runs(s.vegas.threads[t], StageOf(s, t))
    case GiveBack(t) => t in s.vegas.threads && s.vegas.threads[t].ToReturn? && StageOf(s, t).Rejected?
    case Push(t, _, _) =>
      && t in s.vegas.threads && s.vegas.threads[t].ToReturn? && !s.vegas.threads[t].success
      && StageOf(s, t).Direct?
    case Listen(t) => t in s.vegas.threads && StageOf(s, t).Queued?
    case Expire(t) => t in s.vegas.threads && StageOf(s, t).Listening?
    case Receive(t) => Pops(s, t) && s.queue != []
    case Judge(t, _) => t in s.vegas.threads && StageOf(s, t).Holding?
    case Answer(t, r) => t in s.vegas.threads && StageOf(s, t).Answering? && Reaches(s, StageOf(s, t).p.ch, r)
    case Stop(t) => Pops(s, t) && s.queue == []
  }

  /** The callback is done, and the queue has not admitted anybody in exchange. */
  predicate Pops(s: State, t: nat) {
    t in s.vegas.threads && s.vegas.threads[t].Finished? && StageOf(s, t).Completing?
  }

  function Put(s: State, t: nat, stage: Stage): State {
    s.(stages := s.stages[t := stage])
  }

  predicate IsEntry(s: State, step: Step) {
    step.Inner? && step.step.Move? && step.step.t in s.vegas.threads && s.vegas.threads[step.step.t].ToEnter?
  }

  /** How many more than 2048 an entry within the limit makes of requests in flight and half done. */
  ghost function ExcessAfter(s: State, step: Step): int {
    var f := s.vegas.inFlight + 1;
    if IsEntry(s, step) && f <= MAX_LIMIT && s.excess < f + |Completers(s)| - MAX_LIMIT
    then f + |Completers(s)| - MAX_LIMIT
    else s.excess
  }

  ghost function Next(s: State, step: Step): State
    requires Enabled(s, step)
  {
    match step
    case Inner(inner) => s.(vegas := V.Next(s.vegas, inner), excess := ExcessAfter(s, step))
    case Complete(t, op, rtt, end) =>
      Put(s.(vegas := V.Next(s.vegas, V.Return(t, op, rtt, end)), completions := s.completions + 1), t, Completing)
    case GiveBack(t) => Put(s.(vegas := V.Next(s.vegas, V.Return(t, Ignore, 0, 0))), t, Over)
    case Push(t, ch, now) =>
      if |s.queue| < CAPACITY then Put(s.(queue := s.queue + [Packet(ch, now)]), t, Queued(ch)) else Put(s, t, Rejected)
    case Listen(t) => Put(s, t, Listening(StageOf(s, t).ch))
    case Expire(t) => Put(s, t, Rejected)
    case Receive(t) => Put(s.(queue := s.queue[1..]), t, Holding(s.queue[0]))
    case Judge(t, now) =>
      var p := StageOf(s, t).p;
      var (codel, drop) := C.Judge(s.option, s.codel, now, now - p.timestamp);
      Put(s.(codel := codel), t, Answering(p, drop))
    case Answer(t, receiver) =>
      if receiver == None then Put(s, t, Completing)
      else if StageOf(s, t).drop then Put(Put(s, receiver.value, Rejected), t, Completing)
      else Put(Put(s.(admissions := s.admissions + 1), receiver.value, Admitted), t, Over)
    case Stop(t) => Put(s, t, Over)
  }

  // ---- The invariant -------------------------------------------------------------------------------

  /** Before its token is taken and while the limit is read a request has not met the queue; it waits in
      `ToReturn` without success; and it completes after that. */
  predicate Fits(pc: V.Pc, stage: Stage) {
    match stage
    case Direct => pc.ToEnter? || pc.ToLoadLimit? || pc.ToReturn?
    case Queued(_) | Listening(_) | Rejected | Admitted => pc.ToReturn?
    case Completing => InCallback(pc) || pc.Finished?
    case Holding(_) | Answering(_, _) | Over => pc.Finished?
  }

  predicate InCallback(pc: V.Pc) {
    pc.ToLoadSample? || V.HasSample(pc)
  }

  ghost predicate AllFit(s: State) {
    forall t | t in s.vegas.threads :: Fits(s.vegas.threads[t], StageOf(s, t))
  }

  ghost predicate Inv(s: State) {
    && V.Inv(s.vegas) && AllFit(s)
    && s.admissions + |Completers(s)| <= s.completions
    && |Admissibles(s)| + |Completers(s)| <= MAX_LIMIT + s.excess
  }

  lemma SubsetSize(a: set<nat>, b: set<nat>)
    requires a <= b
    ensures |a| <= |b|
  {
    assert b == a + (b - a);
  }

  /** `t` alone has moved. */
  ghost predicate OnlyMoved(s: State, s': State, t: nat) {
    && t in s.vegas.threads && s'.vegas.threads.Keys == s.vegas.threads.Keys
    && forall u | u in s.vegas.threads && u != t ::
         s'.vegas.threads[u] == s.vegas.threads[u] && StageOf(s', u) == StageOf(s, u)
  }

  function One(b: bool): int {
    if b then 1 else 0
  }

  lemma SwapOne(a: set<nat>, b: set<nat>, t: nat)
    requires a - {t} == b - {t}
    ensures |b| == |a| - One(t in a) + One(t in b)
  {
    assert a == (a - {t}) + if t in a then {t} else {};
    assert b == (a - {t}) + if t in b then {t} else {};
  }

  /** What moving one request does to the numbers of requests. */
  lemma MoveOne(s: State, s': State, t: nat)
    requires OnlyMoved(s, s', t)
    ensures |Completers(s')| == |Completers(s)| - One(HalfDone(StageOf(s, t))) + One(HalfDone(StageOf(s', t)))
    ensures |Admissibles(s')| == |Admissibles(s)| - One(Admissible(s.vegas.threads[t], StageOf(s, t)))
                                                  + One(Admissible(s'.vegas.threads[t], StageOf(s', t)))
  {
    hide Admissible, HalfDone;
    SwapOne(Completers(s), Completers(s'), t);
    SwapOne(Admissibles(s), Admissibles(s'), t);
  }

  lemma MoveFits(s: State, s': State, t: nat)
    requires OnlyMoved(s, s', t) && AllFit(s) && Fits(s'.vegas.threads[t], StageOf(s', t))
    ensures AllFit(s')
  {
    hide Fits;
  }

  /** Everybody admissible holds a token. */
  lemma AdmissiblesHoldTokens(s: State)
    requires V.Inv(s.vegas)
    ensures |Admissibles(s)| <= s.vegas.inFlight
  {
    hide V.MutexInv, V.SamplesInv, V.UpdatesInv, V.ControlInv;
    SubsetSize(Admissibles(s), V.Tokens(s.vegas));
  }

  /** Where a step of `Acquire` or of a callback leads. */
  lemma InnerPc(st: V.State, inner: V.Step)
    requires V.Enabled(st, inner) && !inner.Return?
    ensures inner.t in V.Next(st, inner).threads
    ensures var pc, pc' := st.threads[inner.t], V.Next(st, inner).threads[inner.t];
            if pc.ToEnter? then
              pc' == V.ToLoadLimit(st.inFlight + 1) && V.Next(st, inner).inFlight == st.inFlight + 1 && inner.Move?
            else if pc.ToLoadLimit? then
              pc' == V.ToReturn(pc.f, pc.f <= st.v.limit) && V.Next(st, inner).inFlight == st.inFlight
            else
              InCallback(pc) && (InCallback(pc') || pc'.Finished?) && V.Next(st, inner).inFlight == st.inFlight
  {
    hide VegasModel.NewLimit, VegasModel.NewUpdateTime, WithMin;
  }

  lemma LimitBound(st: V.State)
    requires V.Inv(st)
    ensures st.v.limit <= MAX_LIMIT
  {
    hide V.MutexInv, V.SamplesInv, V.UpdatesInv, V.TokensInv;
  }

  lemma InnerInv(s: State, step: Step)
    requires Inv(s) && Enabled(s, step) && step.Inner?
    ensures Inv(Next(s, step))
  {
    hide V.Inv, V.Next, V.Enabled, Admissibles, Completers, AllFit;
    var t, s' := step.step.t, Next(s, step);
    V.StepInv(s.vegas, step.step);
    InnerMoves(s, step);
    InnerPc(s.vegas, step.step);
    MoveOne(s, s', t);
    FitOne(s, t);
    MoveFits(s, s', t);
    LimitBound(s.vegas);
    AdmissiblesHoldTokens(s');
  }

  lemma InnerMoves(s: State, step: Step)
    requires Enabled(s, step) && step.Inner?
    ensures OnlyMoved(s, Next(s, step), step.step.t)
  {
    hide V.Next;
    V.StepThreads(s.vegas, step.step);
  }

  lemma FitOne(s: State, t: nat)
    requires AllFit(s) && t in s.vegas.threads
    ensures Fits(s.vegas.threads[t], StageOf(s, t))
  {
  }

  /** The callback is called: the token is given back. */
  lemma ReturnPc(st: V.State, t: nat, op: Operation, rtt: int, end: int)
    requires t in st.threads && st.threads[t].ToReturn?
    ensures var st' := V.Next(st, V.Return(t, op, rtt, end));
            && t in st'.threads && st'.inFlight == st.inFlight - 1
            && (if op == Ignore then st'.threads[t].Finished? else InCallback(st'.threads[t]))
  {
  }

  lemma CompleteInv(s: State, step: Step)
    requires Inv(s) && Enabled(s, step) && (step.Complete? || step.GiveBack?)
    ensures Inv(Next(s, step))
  {
    hide V.Inv, V.Next, V.Enabled, Admissibles, Completers, AllFit;
    var t, s' := step.t, Next(s, step);
    var ret := if step.Complete? then V.Return(t, step.op, step.rtt, step.end) else V.Return(t, Ignore, 0, 0);
    ReturnEnabled(s.vegas, ret);
    V.StepInv(s.vegas, ret);
    V.StepThreads(s.vegas, ret);
    ReturnPc(s.vegas, t, ret.op, ret.rtt, ret.end);
    FitOne(s, t);
    MoveOne(s, s', t);
    MoveFits(s, s', t);
  }

  lemma ReturnEnabled(st: V.State, ret: V.Step)
    requires ret.Return? && ret.t in st.threads && st.threads[ret.t].ToReturn?
    ensures V.Enabled(st, ret)
  {
  }

  /** What happens at the queue to one request alone. */
  lemma QueueInv(s: State, step: Step)
    requires Inv(s) && Enabled(s, step)
    requires step.Push? || step.Listen? || step.Expire? || step.Receive? || step.Judge? || step.Stop?
    ensures Inv(Next(s, step))
  {
    hide V.Inv, Admissibles, Completers, AllFit, C.Judge;
    FitOne(s, step.t);
    MoveOne(s, Next(s, step), step.t);
    MoveFits(s, Next(s, step), step.t);
  }

  /** A pop that admits moves no token: the receiver starts to run, the completion is over. */
  lemma AnswerInv(s: State, step: Step)
    requires Inv(s) && Enabled(s, step) && step.Answer?
    ensures Inv(Next(s, step))
  {
    hide V.Inv, Admissibles, Completers, AllFit;
    var t, s' := step.t, Next(s, step);
    FitOne(s, t);
    if step.receiver.Some? {
      var w := step.receiver.value;
      FitOne(s, w);
      var mid := Put(s, w, if StageOf(s, t).drop then Rejected else Admitted);
      MoveOne(s, mid, w);
      MoveFits(s, mid, w);
      MoveOne(mid, s', t);
      MoveFits(mid, s', t);
    } else {
      MoveOne(s, s', t);
      MoveFits(s, s', t);
    }
  }

  lemma StepInv(s: State, step: Step)
    requires Inv(s) && Enabled(s, step)
    ensures Inv(Next(s, step))
  {
    hide Inv, Enabled, Next;
    match step
    case Inner(_) => InnerInv(s, step);
    case Complete(_, _, _, _) | GiveBack(_) => CompleteInv(s, step);
    case Answer(_, _) => AnswerInv(s, step);
    case _ => QueueInv(s, step);
  }

  // ---- Runs ----------------------------------------------------------------------------------------

  predicate Init(s: State) {
    && V.Init(s.vegas) && s.queue == [] && s.codel == C.FRESH && s.stages == map[]
    && s.admissions == 0 && s.completions == 0 && s.excess == 0
  }

  /** The state after the first `k` steps. A step that is not enabled has no place in a run. */
  ghost function After(s: State, steps: seq<Step>, k: nat): State
    requires k <= |steps|
  {
    if k == 0 then s
    else
      var p := After(s, steps, k - 1);
      if Enabled(p, steps[k - 1]) then Next(p, steps[k - 1]) else p
  }

  ghost predicate IsRun(s: State, steps: seq<Step>) {
    forall k | 0 <= k < |steps| :: Enabled(After(s, steps, k), steps[k])
  }

  lemma AfterOne(s: State, steps: seq<Step>, k: nat)
    requires IsRun(s, steps) && 0 < k <= |steps|
    ensures Enabled(After(s, steps, k - 1), steps[k - 1])
    ensures After(s, steps, k) == Next(After(s, steps, k - 1), steps[k - 1])
  {
    hide Next, Enabled;
    assert Enabled(After(s, steps, k - 1), steps[k - 1]);
  }

  lemma InitInv(s: State)
    requires Init(s)
    ensures Inv(s)
  {
    V.InitInv(s.vegas);
    hide V.Inv;
    assert Completers(s) == {} && Admissibles(s) == {};
  }

  lemma {:induction false} RunInv(s: State, steps: seq<Step>, k: nat)
    requires Init(s) && IsRun(s, steps) && k <= |steps|
    ensures Inv(After(s, steps, k))
  {
    hide Inv, Next, Enabled, Init, IsRun;
    if k == 0 {
      InitInv(s);
    } else {
      RunInv(s, steps, k - 1);
      AfterOne(s, steps, k);
      StepInv(After(s, steps, k - 1), steps[k - 1]);
    }
  }

  lemma InvMeans(s: State)
    requires Inv(s)
    ensures s.vegas.inFlight == |V.Tokens(s.vegas)| && InRange(s.vegas.v.limit)
    ensures s.admissions + |Completers(s)| <= s.completions
    ensures |RunningOnes(s)| + |Completers(s)| <= MAX_LIMIT + s.excess
  {
    hide V.MutexInv, V.SamplesInv, V.UpdatesInv;
    SubsetSize(RunningOnes(s), Admissibles(s));
  }

  /** In every interleaving: the in-flight counter is the number of tokens held, the limit is in range,
      admissions through the queue never exceed completions, and the number of running requests is at most
      2048 plus the excess. */
  lemma Conservation(s: State, steps: seq<Step>, k: nat)
    requires Init(s) && IsRun(s, steps) && k <= |steps|
    ensures var p := After(s, steps, k);
            && p.vegas.inFlight == |V.Tokens(p.vegas)| && InRange(p.vegas.v.limit)
            && p.admissions <= p.completions
            && |RunningOnes(p)| <= MAX_LIMIT + p.excess
  {
    hide Inv, Init, IsRun, After;
    RunInv(s, steps, k);
    InvMeans(After(s, steps, k));
  }

  /** The entry finds 2048 in flight, or fewer than that together with the completions under way. */
  ghost predicate Roomy(s: State, step: Step) {
    IsEntry(s, step) ==>
      var f := s.vegas.inFlight + 1;
      MAX_LIMIT < f || f + |Completers(s)| <= MAX_LIMIT
  }

  lemma StepExcess(s: State, step: Step)
    requires Enabled(s, step) && 0 <= s.excess
    ensures 0 <= Next(s, step).excess
    ensures Next(s, step).excess == 0 <==> s.excess == 0 && Roomy(s, step)
  {
    hide V.Next, V.Enabled, Completers, C.Judge;
  }

  /** There is no excess exactly as long as every entry was roomy, which an entry can tell. */
  lemma {:induction false} NoExcessIff(s: State, steps: seq<Step>, k: nat)
    requires Init(s) && IsRun(s, steps) && k <= |steps|
    ensures 0 <= After(s, steps, k).excess
    ensures After(s, steps, k).excess == 0 <==> forall i | 0 <= i < k :: Roomy(After(s, steps, i), steps[i])
  {
    hide Next, Enabled, Roomy, IsRun;
    if 0 < k {
      hide Init;
      NoExcessIff(s, steps, k - 1);
      AfterOne(s, steps, k);
      StepExcess(After(s, steps, k - 1), steps[k - 1]);
    }
  }

  /** If every entry was roomy, never more than 2048 requests run. */
  lemma AtMostMaxRunning(s: State, steps: seq<Step>, k: nat)
    requires Init(s) && IsRun(s, steps) && k <= |steps|
    requires forall i | 0 <= i < k :: Roomy(After(s, steps, i), steps[i])
    ensures |RunningOnes(After(s, steps, k))| <= MAX_LIMIT
  {
    hide Init, IsRun, After, Roomy, RunningOnes;
    Conservation(s, steps, k);
    NoExcessIff(s, steps, k);
  }

  /** That is so, for one, if nobody enters while a completion is under way: if completions are one step. */
  lemma AtomicIsRoomy(s: State, step: Step)
    requires Completers(s) == {}
    ensures Roomy(s, step)
  {
  }

  // ---- Who is rejected, and in what order the queue is served ----------------------------------------

  /** A request is rejected exactly by a full queue, by the end of its own patience, or by a verdict to drop that
      reaches it; it is admitted exactly by one to keep. */
  lemma RejectedIff(s: State, step: Step, t: nat)
    requires Enabled(s, step)
    ensures !StageOf(s, t).Rejected? ==>
              (StageOf(Next(s, step), t).Rejected? <==>
                 || (step.Push? && step.t == t && 2048 <= |s.queue|)
                 || (step.Expire? && step.t == t)
                 || (step.Answer? && step.receiver == Some(t) && StageOf(s, step.t).drop))
    ensures !StageOf(s, t).Admitted? ==>
              (StageOf(Next(s, step), t).Admitted? <==>
                 step.Answer? && step.receiver == Some(t) && !StageOf(s, step.t).drop)
  {
    hide V.Next, V.Enabled, C.Judge;
  }

  /** The verdict on a packet is whether it has waited too long after the first-above time; the completion that
      asked for it is over if it has admitted somebody, and goes on popping otherwise. */
  lemma VerdictsAndAnswers(s: State, step: Step)
    requires Enabled(s, step) && (step.Judge? || step.Answer?)
    ensures step.Judge? ==>
              var p := StageOf(s, step.t).p;
              StageOf(Next(s, step), step.t) ==
                Answering(p, && s.option.target <= step.now - p.timestamp
                             && s.codel.faTime != 0 && s.codel.faTime <= step.now)
    ensures step.Answer? ==>
              StageOf(Next(s, step), step.t) ==
                if step.receiver.Some? && !StageOf(s, step.t).drop then Over else Completing
  {
    if step.Judge? {
      C.VerdictIsFaCheck(s.option, s.codel, step.now, step.now - StageOf(s, step.t).p.timestamp);
      hide C.Judge;
    }
  }

  /** Rejected, or over: out of the game. */
  predicate Out(s: State, t: nat) {
    t in s.vegas.threads && (StageOf(s, t).Rejected? || StageOf(s, t).Over?)
  }

  lemma OutStays(s: State, step: Step, t: nat)
    requires Enabled(s, step) && AllFit(s) && Out(s, t)
    ensures Out(Next(s, step), t) && !Runs(s.vegas.threads[t], StageOf(s, t))
  {
    hide V.Enabled, C.Judge, V.Next;
    FitOne(s, t);
    if step.Inner? {
      V.StepThreads(s.vegas, step.step);
    } else if step.Complete? {
      ReturnEnabled(s.vegas, V.Return(step.t, step.op, step.rtt, step.end));
      V.StepThreads(s.vegas, V.Return(step.t, step.op, step.rtt, step.end));
    } else if step.GiveBack? {
      ReturnEnabled(s.vegas, V.Return(step.t, Ignore, 0, 0));
      V.StepThreads(s.vegas, V.Return(step.t, Ignore, 0, 0));
    }
  }

  /** A rejected request never runs. */
  lemma {:induction false} RejectedNeverRuns(s: State, steps: seq<Step>, i: nat, j: nat, t: nat)
    requires Init(s) && IsRun(s, steps) && i <= j <= |steps| && Out(After(s, steps, i), t)
    ensures Out(After(s, steps, j), t)
    ensures !Runs(After(s, steps, j).vegas.threads[t], StageOf(After(s, steps, j), t))
    decreases j
  {
    hide Enabled, Next, Init, IsRun, After, V.Inv, Completers, Admissibles, AllFit;
    if i < j {
      RejectedNeverRuns(s, steps, i, j - 1, t);
      RunInv(s, steps, j - 1);
      AfterOne(s, steps, j);
      OutStays(After(s, steps, j - 1), steps[j - 1], t);
    }
  }

  /** The packets put into the queue in the first `k` steps, in order. */
  ghost function Pushed(s: State, steps: seq<Step>, k: nat): seq<Packet>
    requires k <= |steps|
  {
    if k == 0 then []
    else
      var p, step := After(s, steps, k - 1), steps[k - 1];
      Pushed(s, steps, k - 1)
      + if step.Push? && |p.queue| < 2048 then [Packet(step.ch, step.now)] else []
  }

  /** The packets received from it, in order. */
  ghost function Received(s: State, steps: seq<Step>, k: nat): seq<Packet>
    requires k <= |steps|
  {
    if k == 0 then []
    else
      var q, step := After(s, steps, k), steps[k - 1];
      Received(s, steps, k - 1)
      + if step.Receive? && StageOf(q, step.t).Holding? then [StageOf(q, step.t).p] else []
  }

  lemma QueueStep(s: State, step: Step)
    requires Enabled(s, step)
    ensures var q := Next(s, step);
            var pushed := if step.Push? && |s.queue| < 2048 then [Packet(step.ch, step.now)] else [];
            var received := if step.Receive? && StageOf(q, step.t).Holding? then [StageOf(q, step.t).p] else [];
            received + q.queue == s.queue + pushed
  {
    hide V.Next, V.Enabled, C.Judge;
  }

  /** First come, first served: what was received, followed by what waits, is what was pushed. */
  lemma {:induction false} QueueIsFirstInFirstOut(s: State, steps: seq<Step>, k: nat)
    requires Init(s) && IsRun(s, steps) && k <= |steps|
    ensures Received(s, steps, k) + After(s, steps, k).queue == Pushed(s, steps, k)
  {
    hide Enabled, Next, IsRun, After, StageOf;
    if k == 0 {
      AfterNone(s, steps);
    } else {
      QueueIsFirstInFirstOut(s, steps, k - 1);
      AfterOne(s, steps, k);
      var p, q, step := After(s, steps, k - 1), After(s, steps, k), steps[k - 1];
      QueueStep(p, step);
      var pushed := if step.Push? && |p.queue| < 2048 then [Packet(step.ch, step.now)] else [];
      var received := if step.Receive? && StageOf(q, step.t).Holding? then [StageOf(q, step.t).p] else [];
      Regroup(Received(s, steps, k - 1), received, q.queue, p.queue, pushed);
    }
  }

  lemma Regroup(a: seq<Packet>, b: seq<Packet>, c: seq<Packet>, d: seq<Packet>, e: seq<Packet>)
    requires b + c == d + e
    ensures (a + b) + c == (a + d) + e
  {
    assert (a + b) + c == a + (b + c) && (a + d) + e == a + (d + e);
  }

  lemma AfterNone(s: State, steps: seq<Step>)
    ensures After(s, steps, 0) == s
  {
  }
}
