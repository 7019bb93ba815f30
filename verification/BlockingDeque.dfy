/**
 The blocking operations of the deque as threads interleaving at their atomic steps: locking, one attempt
 on the deque, the steps of a wait (register, release, select, wake, lock again, deregister), and
 interrupts. The deque itself is its contents; Deque shows that the linked structure behaves like that.
 */
module BlockingDeque {
  import opened Wrappers
  import opened DequeModel
  import opened TimeoutCondition

  /** The two conditions of the deque: takes wait on `NotEmpty`, puts on `NotFull`. */
  datatype Cond = NotEmpty | NotFull

  /** `Poll` never waits, `PollCtx` waits until its context is done, `Take` waits. */
  datatype Mode = Poll | PollCtx | Take

  datatype Op =
    | PutOp(back: bool, e: Item, wait: bool)
    | TakeOp(front: bool, mode: Mode)
    | RemoveOp(place: nat)

  datatype Pc =
    | Idle
    | Trying(op: Op, interrupted: bool)   // holds the lock
    | Registered(op: Op)                  // in Wait: counted as a waiter, holds the lock
    | Released(op: Op, ch: nat)           // in Wait: has the channel, gave up the lock
    | Parked(op: Op, ch: nat)             // in Wait: in its select
    | Woken(op: Op, result: bool)         // in Wait: select is over, wants the lock
    | Relocked(op: Op, result: bool)      // in Wait: holds the lock, still counted

  datatype Outcome = Accepted(e: Item) | Full | Got(e: Item) | Empty | Interrupted | Expired | Blocks

  datatype State = State(
    capacity: nat, items: seq<Item>, lock: Option<nat>,
    notEmpty: CondState, notFull: CondState, threads: map<nat, Pc>,
    accepted: seq<Item>, taken: seq<Item>)  // what was put in and what was handed out, in order

  datatype Step =
    | Lock(t: nat, op: Op)
    | Try(t: nat, ctxDone: bool, wakes: Option<nat>)
    | Release(t: nat)
    | Select(t: nat)
    | WakeClosed(t: nat)
    | WakeDone(t: nat)
    | Relock(t: nat)
    | Deregister(t: nat)
    | Interrupt(c: Cond)

  // ---- One step ------------------------------------------------------------------------------------

  function CondOf(op: Op): Cond {
    if op.PutOp? then NotFull else NotEmpty
  }

  predicate Holds(pc: Pc) {
    pc.Trying? || pc.Registered? || pc.Relocked?
  }

  predicate InWait(pc: Pc) {
    !pc.Idle? && !pc.Trying?
  }

  function At(s: State, c: Cond): CondState {
    if c == NotEmpty then s.notEmpty else s.notFull
  }

  function With(s: State, c: Cond, v: CondState): State {
    if c == NotEmpty then s.(notEmpty := v) else s.(notFull := v)
  }

  /** What one attempt does; `Blocks` means that the thread goes on to wait. */
  function Attempt(s: State, op: Op, interrupted: bool, ctxDone: bool): Outcome {
    match op
    case PutOp(_, e, wait) =>
      if |s.items| < s.capacity then Accepted(e) else if wait then Blocks else Full
    case TakeOp(front, mode) =>
      if s.items != [] then Got(if front then s.items[0] else s.items[|s.items| - 1])
      else if mode == Poll then Empty
      else if interrupted then Interrupted
      else if mode == PollCtx && ctxDone then Expired
      else Blocks
    case RemoveOp(i) =>
      if i < |s.items| then Got(s.items[i]) else Empty
  }

  /** The deque after an attempt. */
  function Contents(s: State, op: Op): seq<Item> {
    match op
    case PutOp(back, e, _) =>
      if |s.items| < s.capacity then if back then s.items + [e] else [e] + s.items else s.items
    case TakeOp(front, _) =>
      if s.items == [] then [] else if front then s.items[1..] else s.items[..|s.items| - 1]
    case RemoveOp(i) =>
      if i < |s.items| then s.items[..i] + s.items[i + 1..] else s.items
  }

  /** The pointer operation that an attempt makes on the linked deque; `x` is the fresh node of a put. */
  ghost function OnList(d: DequeModel.State, op: Op, x: Node): DequeModel.State
    requires DequeModel.Inv(d)
  {
    match op
    case PutOp(back, e, _) =>
      if d.count >= d.capacity then d else if back then PushLast(d, x, e) else PushFirst(d, x, e)
    case TakeOp(front, _) =>
      if d.first == null || d.last == null then d else if front then PopFirst(d) else PopLast(d)
    case RemoveOp(i) =>
      if i < |d.order| then Unlink(d, i) else d
  }

  /** An attempt does to the contents what the pointer operation does to the linked deque, keeps its shape,
      and hands out the item of the node that it unlinks. */
  lemma AttemptOnList(s: State, d: DequeModel.State, op: Op, x: Node)
    requires DequeModel.Inv(d) && Items(d) == s.items && d.capacity == s.capacity && x !in d.cells
    ensures DequeModel.Inv(OnList(d, op, x)) && Items(OnList(d, op, x)) == Contents(s, op)
    ensures OnList(d, op, x).capacity == s.capacity
    ensures forall interrupted, ctxDone :: Attempt(s, op, interrupted, ctxDone).Got? ==>
              exists i: nat :: i < |d.order| && Contents(s, op) == Without(s.items, i)
                && Attempt(s, op, interrupted, ctxDone).e == d.cells[d.order[i]].life.value
  {
    hide DequeModel.Inv, Items, Inserted, Removed, PushFirst, PushLast, PopFirst, PopLast, Unlink;
    EndPlaces(d);
    CapacityKept(d, op, x);
    match op
    case PutOp(back, e, _) =>
      if d.count < d.capacity {
        PushFirstInv(d, x, e);
        PushLastInv(d, x, e);
      }
    case TakeOp(front, _) =>
      if d.order != [] {
        PopInv(d);
        var i: nat := if front then 0 else |d.order| - 1;
        assert Contents(s, op) == Without(s.items, i);
      }
    case RemoveOp(i) =>
      if i < |d.order| {
        UnlinkInv(d, i);
        assert Contents(s, op) == Without(s.items, i);
      }
  }

  lemma CapacityKept(d: DequeModel.State, op: Op, x: Node)
    requires DequeModel.Inv(d)
    ensures OnList(d, op, x).capacity == d.capacity
  {
  }

  predicate ParkedOn(s: State, c: Cond, t: nat)
  {
    t in s.threads && s.threads[t].Parked? && CondOf(s.threads[t].op) == c && s.threads[t].ch == At(s, c).gen
  }

  /** A signal is a send that does not block: it reaches one of the threads in a select on the current
      channel, and is lost if there is none. */
  predicate SignalReaches(s: State, c: Cond, w: Option<nat>)
  {
    match w
    case Some(t) => ParkedOn(s, c, t)
    case None => forall t | t in s.threads :: !ParkedOn(s, c, t)
  }

  function Signalled(threads: map<nat, Pc>, w: Option<nat>): map<nat, Pc>
    requires w.Some? ==> w.value in threads && threads[w.value].Parked?
  {
    match w
    case Some(t) => threads[t := Woken(threads[t].op, false)]
    case None => threads
  }

  predicate Enabled(s: State, step: Step)
  {
    match step
    case Lock(t, _) => t in s.threads && s.threads[t].Idle? && s.lock == None
    case Try(t, ctxDone, w) =>
      && t in s.threads && s.threads[t].Trying?
      && (match Attempt(s, s.threads[t].op, s.threads[t].interrupted, ctxDone)
          case Accepted(_) => SignalReaches(s, NotEmpty, w)
          case Got(_) => SignalReaches(s, NotFull, w)
          case Blocks => w == None && At(s, CondOf(s.threads[t].op)).hasWaiters < MAX_UINT64
          case _ => w == None)
    case Release(t) => t in s.threads && s.threads[t].Registered?
    case Select(t) => t in s.threads && s.threads[t].Released?
    case WakeClosed(t) =>
      t in s.threads && s.threads[t].Parked? && s.threads[t].ch < At(s, CondOf(s.threads[t].op)).gen
    case WakeDone(t) => t in s.threads && s.threads[t].Parked?
    case Relock(t) => t in s.threads && s.threads[t].Woken? && s.lock == None
    case Deregister(t) => t in s.threads && s.threads[t].Relocked? && At(s, CondOf(s.threads[t].op)).hasWaiters > 0
    case Interrupt(_) => s.lock == None
  }

  function Counted(s: State, c: Cond, delta: int): State
    requires At(s, c).hasWaiters + delta >= 0
  {
    With(s, c, At(s, c).(hasWaiters := At(s, c).hasWaiters + delta))
  }

  function Next(s: State, step: Step): State
    requires Enabled(s, step)
  {
    match step
    case Lock(t, op) => s.(lock := Some(t), threads := s.threads[t := Trying(op, false)])
    case Try(t, ctxDone, w) =>
      var op := s.threads[t].op;
      var done := s.(items := Contents(s, op), lock := None, threads := Signalled(s.threads, w)[t := Idle]);
      (match Attempt(s, op, s.threads[t].interrupted, ctxDone)
       case Accepted(e) => done.(accepted := s.accepted + [e])
       case Got(e) => done.(taken := s.taken + [e])
       case Blocks => Counted(s, CondOf(op), 1).(threads := s.threads[t := Registered(op)])
       case _ => done)
    case Release(t) =>
      var op := s.threads[t].op;
      s.(lock := None, threads := s.threads[t := Released(op, At(s, CondOf(op)).gen)])
    case Select(t) => s.(threads := s.threads[t := Parked(s.threads[t].op, s.threads[t].ch)])
    case WakeClosed(t) => s.(threads := s.threads[t := Woken(s.threads[t].op, true)])
    case WakeDone(t) => s.(threads := s.threads[t := Woken(s.threads[t].op, false)])
    case Relock(t) => s.(lock := Some(t), threads := s.threads[t := Relocked(s.threads[t].op, s.threads[t].result)])
    case Deregister(t) =>
      var op := s.threads[t].op;
      Counted(s, CondOf(op), -1).(threads := s.threads[t := Trying(op, s.threads[t].result)])
    case Interrupt(c) => With(s, c, At(s, c).(gen := At(s, c).gen + 1))
  }

  predicate Init(s: State) {
    && s.items == [] && s.lock == None && s.accepted == [] && s.taken == []
    && (forall c :: At(s, c) == CondState(0, 0))
    && (forall t | t in s.threads :: s.threads[t].Idle?)
  }

  // ---- The invariant -------------------------------------------------------------------------------

  ghost function Waiters(s: State, c: Cond): set<nat> {
    set t | t in s.threads && InWait(s.threads[t]) && CondOf(s.threads[t].op) == c
  }

  /** At most one thread is in a critical section. */
  ghost predicate Exclusive(s: State) {
    forall t | t in s.threads :: Holds(s.threads[t]) <==> s.lock == Some(t)
  }

  /** Each counter is the number of threads inside a wait on its condition. */
  ghost predicate Exact(s: State) {
    forall c :: At(s, c).hasWaiters == |Waiters(s, c)|
  }

  /** No thread waits on a channel newer than the current one. */
  ghost predicate Captured(s: State) {
    forall t | t in s.threads && (s.threads[t].Released? || s.threads[t].Parked?) ::
      s.threads[t].ch <= At(s, CondOf(s.threads[t].op)).gen
  }

  /** Within capacity, and every item put in is still there or was handed out, exactly once. */
  ghost predicate Conserved(s: State) {
    && |s.items| <= s.capacity
    && multiset(s.accepted) == multiset(s.items) + multiset(s.taken)
  }

  ghost predicate Inv(s: State) {
    Exclusive(s) && Exact(s) && Captured(s) && Conserved(s)
  }

  lemma InitInv(s: State)
    requires Init(s) && 0 <= s.capacity
    ensures Inv(s)
  {
    assert forall c :: Waiters(s, c) == {};
  }

  lemma TakeOut(q: seq<Item>, i: nat)
    requires i < |q|
    ensures multiset(q) == multiset(q[..i] + q[i + 1..]) + multiset{q[i]}
  {
    assert q == q[..i] + [q[i]] + q[i + 1..];
  }

  lemma AcceptedContents(s: State, op: Op)
    requires op.PutOp? && |s.items| < s.capacity
    ensures multiset(Contents(s, op)) == multiset(s.items) + multiset{op.e} && |Contents(s, op)| == |s.items| + 1
  {
  }

  lemma GotContents(s: State, op: Op, e: Item)
    requires !op.PutOp? && Attempt(s, op, false, false) == Got(e)
    ensures multiset(s.items) == multiset(Contents(s, op)) + multiset{e} && |Contents(s, op)| == |s.items| - 1
  {
    var i := if op.RemoveOp? then op.place else if op.front then 0 else |s.items| - 1;
    TakeOut(s.items, i);
    assert Contents(s, op) == s.items[..i] + s.items[i + 1..];
  }

  lemma TryConserves(s: State, step: Step)
    requires Conserved(s) && Enabled(s, step) && step.Try?
    ensures Conserved(Next(s, step))
  {
    var op := s.threads[step.t].op;
    match Attempt(s, op, s.threads[step.t].interrupted, step.ctxDone)
    case Accepted(e) => AcceptedContents(s, op);
    case Got(e) => GotContents(s, op, e);
    case _ =>
  }

  lemma StepConserves(s: State, step: Step)
    requires Conserved(s) && Enabled(s, step)
    ensures Conserved(Next(s, step))
  {
    if step.Try? { TryConserves(s, step); }
  }

  lemma StepExclusive(s: State, step: Step)
    requires Exclusive(s) && Enabled(s, step)
    ensures Exclusive(Next(s, step))
  {
  }

  lemma StepCaptured(s: State, step: Step)
    requires Captured(s) && Enabled(s, step)
    ensures Captured(Next(s, step))
  {
  }

  /** `t` enters (or leaves) a wait on `c` and nobody else does. */
  lemma WaitersGrow(s: State, s': State, t: nat, c: Cond)
    requires s.threads.Keys == s'.threads.Keys && t in s.threads
    requires forall u | u in s.threads && u != t :: s'.threads[u] == s.threads[u]
    requires !InWait(s.threads[t]) && InWait(s'.threads[t]) && CondOf(s'.threads[t].op) == c
    ensures forall d :: |Waiters(s', d)| == |Waiters(s, d)| + if d == c then 1 else 0
  {
    forall d ensures |Waiters(s', d)| == |Waiters(s, d)| + if d == c then 1 else 0 {
      assert Waiters(s', d) == if d == c then Waiters(s, d) + {t} else Waiters(s, d);
    }
  }

  lemma WaitersSame(s: State, s': State)
    requires s.threads.Keys == s'.threads.Keys
    requires forall u | u in s.threads ::
               InWait(s.threads[u]) == InWait(s'.threads[u])
               && (InWait(s.threads[u]) ==> s'.threads[u].op == s.threads[u].op)
    ensures forall d :: Waiters(s', d) == Waiters(s, d)
  {
  }

  lemma StepExact(s: State, step: Step)
    requires Exact(s) && Enabled(s, step)
    ensures Exact(Next(s, step))
  {
    hide Waiters, Contents;
    var s' := Next(s, step);
    if step.Try? && Attempt(s, s.threads[step.t].op, s.threads[step.t].interrupted, step.ctxDone) == Blocks {
      WaitersGrow(s, s', step.t, CondOf(s.threads[step.t].op));
    } else if step.Deregister? {
      WaitersGrow(s', s, step.t, CondOf(s.threads[step.t].op));
    } else {
      WaitersSame(s, s');
    }
  }

  lemma StepInv(s: State, step: Step)
    requires Inv(s) && Enabled(s, step)
    ensures Inv(Next(s, step))
  {
    StepExclusive(s, step);
    StepExact(s, step);
    StepCaptured(s, step);
    StepConserves(s, step);
  }

  // ---- Runs ----------------------------------------------------------------------------------------

  /** The state after the first `k` steps. A step that is not enabled has no place in a run. */
  function After(s: State, steps: seq<Step>, k: nat): State
    requires k <= |steps|
  {
    if k == 0 then s
    else
      var p := After(s, steps, k - 1);
      if Enabled(p, steps[k - 1]) then Next(p, steps[k - 1]) else p
  }

  ghost predicate IsRun(s: State, steps: seq<Step>) {
    forall k | 0 <= k < |steps| :: Enabled(After(s, steps, k), steps[k])
  }

  lemma AfterNone(s: State, steps: seq<Step>)
    ensures After(s, steps, 0) == s
  {
  }

  lemma AfterOne(s: State, steps: seq<Step>, k: nat)
    requires IsRun(s, steps) && 0 < k <= |steps|
    ensures Enabled(After(s, steps, k - 1), steps[k - 1])
    ensures After(s, steps, k) == Next(After(s, steps, k - 1), steps[k - 1])
  {
  }

  /** In every interleaving: mutual exclusion, exact waiter counts, capacity, and no item lost or handed
      out twice. */
  lemma {:induction false} Safety(s: State, steps: seq<Step>, k: nat)
    requires Init(s) && 0 <= s.capacity && IsRun(s, steps) && k <= |steps|
    ensures Inv(After(s, steps, k))
  {
    hide Inv, Enabled, Next;
    if k == 0 {
      InitInv(s);
    } else {
      AfterOne(s, steps, k);
      Safety(s, steps, k - 1);
      StepInv(After(s, steps, k - 1), steps[k - 1]);
    }
  }

  /** A waiter that has the lock again can always deregister: the counter cannot run below zero. And the
      counter overflows only with more threads than it can count, so these two guards of `Enabled` hide
      nothing that threads could do. */
  lemma CounterNeverPanics(s: State, t: nat)
    requires Inv(s) && t in s.threads
    ensures s.threads[t].Relocked? ==> Enabled(s, Deregister(t))
    ensures s.threads[t].Trying? && |s.threads| <= MAX_UINT64 ==> At(s, CondOf(s.threads[t].op)).hasWaiters < MAX_UINT64
  {
    if s.threads[t].Relocked? {
      assert t in Waiters(s, CondOf(s.threads[t].op));
    } else if s.threads[t].Trying? {
      FewerThan(Waiters(s, CondOf(s.threads[t].op)), s.threads.Keys, t);
    }
  }

  lemma FewerThan(a: set<nat>, b: set<nat>, t: nat)
    requires a <= b && t in b && t !in a
    ensures |a| < |b|
  {
    assert b == a + (b - a) && t in b - a;
  }

  // ---- The linked deque along a run ----------------------------------------------------------------

  /** What a step does to the linked deque: an attempt makes its pointer operation, nothing else touches it. */
  ghost function ListStep(s: State, step: Step, d: DequeModel.State, x: Node): DequeModel.State
    requires DequeModel.Inv(d)
  {
    if step.Try? && step.t in s.threads && s.threads[step.t].Trying? then OnList(d, s.threads[step.t].op, x) else d
  }

  /** The linked deque holds the items, and consists of nodes already used. */
  ghost predicate Shows(d: DequeModel.State, s: State, used: seq<Node>) {
    && DequeModel.Inv(d) && Items(d) == s.items && d.capacity == s.capacity
    && forall n | n in d.cells :: n in used
  }

  lemma OnListNodes(d: DequeModel.State, op: Op, x: Node)
    requires DequeModel.Inv(d) && x !in d.cells
    ensures forall n | n in OnList(d, op, x).cells :: n in d.cells || n == x
  {
    hide DequeModel.Inv, PushFirst, PushLast, PopFirst, PopLast, Unlink, Removed, Inserted, Items;
    EndPlaces(d);
    match op
    case PutOp(_, e, _) =>
      if d.count < d.capacity {
        PushFirstCells(d, x, e);
        PushLastCells(d, x, e);
      }
    case TakeOp(_, _) =>
      if d.order != [] {
        PopFirstCells(d);
        PopLastCells(d);
      }
    case RemoveOp(i) =>
      if i < |d.order| { UnlinkKeys(d, i); }
  }

  lemma UnlinkKeys(d: DequeModel.State, i: nat)
    requires DequeModel.Inv(d) && i < |d.order|
    ensures Unlink(d, i).cells.Keys == d.cells.Keys
  {
    hide DequeModel.Inv, Unlink, Items, Bypassed;
    UnlinkInv(d, i);
  }

  lemma NextItems(s: State, step: Step)
    requires Enabled(s, step)
    ensures Next(s, step).capacity == s.capacity
    ensures Next(s, step).items == if step.Try? then Contents(s, s.threads[step.t].op) else s.items
  {
  }

  lemma ListStepShows(s: State, step: Step, d: DequeModel.State, x: Node, used: seq<Node>)
    requires Enabled(s, step) && Shows(d, s, used) && x !in used
    ensures Shows(ListStep(s, step, d, x), Next(s, step), used + [x])
  {
    hide Next, OnList, DequeModel.Inv, Items, Contents, Attempt;
    NextItems(s, step);
    if step.Try? {
      TryingThread(s, step);
      AttemptOnList(s, d, s.threads[step.t].op, x);
      OnListNodes(d, s.threads[step.t].op, x);
    }
  }

  lemma TryingThread(s: State, step: Step)
    requires Enabled(s, step) && step.Try?
    ensures step.t in s.threads && s.threads[step.t].Trying?
  {
  }

  /** One step of the run and of the linked deque. */
  ghost predicate Together(p: State, step: Step, q: State, d: DequeModel.State, e: DequeModel.State,
                           used: seq<Node>, x: Node) {
    Shows(d, p, used) && Shows(e, q, used + [x]) && e == ListStep(p, step, d, x)
  }

  /** Along every run there is a linked deque that starts empty, is changed by the pointer operations of the
      attempts only, and keeps its shape and holds exactly the contents at every moment. Each step has a node
      of its own at hand. */
  lemma {:induction false} ListAlongRun(s: State, steps: seq<Step>, nodes: seq<Node>, k: nat)
    returns (lists: seq<DequeModel.State>)
    requires Init(s) && IsRun(s, steps) && k <= |steps| == |nodes|
    requires forall i, j | 0 <= i < j < |nodes| :: nodes[i] != nodes[j]
    ensures |lists| == k + 1 && lists[0] == DequeModel.Empty(s.capacity)
    ensures Shows(lists[k], After(s, steps, k), nodes[..k])
    ensures forall i | 0 <= i < k ::
              Together(After(s, steps, i), steps[i], After(s, steps, i + 1), lists[i], lists[i + 1],
                       nodes[..i], nodes[i])
  {
    hide IsRun, Enabled, Next, Init, After, DequeModel.Inv, Shows, ListStep, Together, DequeModel.Empty;
    if k == 0 {
      lists := [DequeModel.Empty(s.capacity)];
      AfterNone(s, steps);
      EmptyShows(s);
      assert nodes[..0] == [];
    } else {
      var before := ListAlongRun(s, steps, nodes, k - 1);
      AfterOne(s, steps, k);
      var e := NextTogether(After(s, steps, k - 1), steps[k - 1], before[k - 1], nodes[..k - 1], nodes[k - 1]);
      assert nodes[..k] == nodes[..k - 1] + [nodes[k - 1]];
      lists := before + [e];
    }
  }

  lemma NextTogether(p: State, step: Step, d: DequeModel.State, used: seq<Node>, x: Node)
    returns (e: DequeModel.State)
    requires Enabled(p, step) && Shows(d, p, used) && x !in used
    ensures Together(p, step, Next(p, step), d, e, used, x) && Shows(e, Next(p, step), used + [x])
  {
    hide Enabled, Next, DequeModel.Inv, Shows, ListStep;
    ShowsInv(d, p, used);
    ListStepShows(p, step, d, x, used);
    e := ListStep(p, step, d, x);
  }

  lemma ShowsInv(d: DequeModel.State, s: State, used: seq<Node>)
    requires Shows(d, s, used)
    ensures DequeModel.Inv(d)
  {
  }

  lemma EmptyShows(s: State)
    requires Init(s)
    ensures Shows(DequeModel.Empty(s.capacity), s, [])
  {
    EmptyInv(s.capacity);
  }

  // ---- How an operation ends -----------------------------------------------------------------------

  /** The item is in, at the end it was meant for, and nothing else has changed. */
  predicate PutDone(s: State, s': State, op: Op)
    requires op.PutOp?
  {
    && s'.accepted == s.accepted + [op.e] && s'.taken == s.taken
    && s'.items == if op.back then s.items + [op.e] else [op.e] + s.items
  }

  /** The item at the end asked for is out and handed over, and nothing else has changed. */
  predicate TakeDone(s: State, s': State, op: Op)
    requires op.TakeOp? && s.items != []
  {
    && s'.accepted == s.accepted
    && if op.front then s'.taken == s.taken + [s.items[0]] && s'.items == s.items[1..]
       else s'.taken == s.taken + [s.items[|s.items| - 1]] && s'.items == s.items[..|s.items| - 1]
  }

  predicate NothingDone(s: State, s': State) {
    s'.accepted == s.accepted && s'.taken == s.taken && s'.items == s.items
  }

  /** A put ends when its item is in, or, if it does not wait, with the deque full. A take ends with an item
      whenever there is one; without one a poll ends at once, a waiting take ends if its last wait was
      interrupted, as interrupted, and one with a context otherwise when that is done, as expired. In all other
      cases the thread registers as a waiter: puts for room, takes for an item. */
  lemma HowAttemptsEnd(s: State, step: Step)
    requires Enabled(s, step) && step.Try?
    ensures step.t in s.threads && s.threads[step.t].Trying? && step.t in Next(s, step).threads
    ensures var pc, s' := s.threads[step.t], Next(s, step);
            var op, ends, out := pc.op, s'.threads[step.t].Idle?, Attempt(s, pc.op, pc.interrupted, step.ctxDone);
            && (op.PutOp? && |s.items| < s.capacity ==> ends && PutDone(s, s', op))
            && (op.PutOp? && s.capacity <= |s.items| ==> NothingDone(s, s') && (ends <==> !op.wait))
            && (op.TakeOp? && s.items != [] ==> ends && TakeDone(s, s', op))
            && (op.TakeOp? && s.items == [] ==>
                  && NothingDone(s, s')
                  && (ends <==> op.mode.Poll? || pc.interrupted || (op.mode.PollCtx? && step.ctxDone))
                  && (!op.mode.Poll? && pc.interrupted ==> out == Interrupted)
                  && (op.mode.PollCtx? && !pc.interrupted && step.ctxDone ==> out == Expired))
            && (!ends ==>
                  && s'.threads[step.t] == Registered(op) && s'.lock == s.lock
                  && s'.notFull.hasWaiters == s.notFull.hasWaiters + (if op.PutOp? then 1 else 0)
                  && s'.notEmpty.hasWaiters == s.notEmpty.hasWaiters + (if op.PutOp? then 0 else 1))
  {
  }

  /** A thread on its way with an operation stays with it until an attempt of its own ends it. */
  lemma OperationGoesOn(s: State, step: Step, t: nat)
    requires Enabled(s, step) && t in s.threads && !s.threads[t].Idle?
    ensures t in Next(s, step).threads
    ensures var pc := Next(s, step).threads[t];
            (step.Try? && step.t == t && s.threads[t].Trying?) || (!pc.Idle? && pc.op == s.threads[t].op)
  {
  }

  /** The put that thread `t` began at step `i` has ended at step `k`. */
  ghost predicate PutEndedAt(s: State, steps: seq<Step>, t: nat, op: Op, k: nat)
    requires op.PutOp? && k < |steps|
  {
    steps[k].Try? && steps[k].t == t && PutDone(After(s, steps, k), After(s, steps, k + 1), op)
  }

  /** A put that waits never gives up: a thread that began one and is done with it has put its item in. */
  lemma {:induction false} WaitingPutLands(s: State, steps: seq<Step>, i: nat, j: nat, t: nat, op: Op) returns (k: nat)
    requires IsRun(s, steps) && i < j <= |steps| && steps[i] == Lock(t, op) && op.PutOp? && op.wait
    requires forall m | i < m < j && steps[m].Lock? :: steps[m].t != t
    ensures t in After(s, steps, j).threads
    ensures var pc := After(s, steps, j).threads[t];
            if pc.Idle? then i < k < j && PutEndedAt(s, steps, t, op, k) else pc.op == op
    decreases j
  {
    hide Enabled, Next, IsRun, After, PutDone;
    AfterOne(s, steps, j);
    var p, step := After(s, steps, j - 1), steps[j - 1];
    if j == i + 1 {
      LockBegins(p, step);
      k := 0;
    } else {
      k := WaitingPutLands(s, steps, i, j - 1, t, op);
      if p.threads[t].Idle? {
        IdleStays(p, step, t);
      } else {
        OperationGoesOn(p, step, t);
        if step.Try? && step.t == t {
          HowAttemptsEnd(p, step);
          k := j - 1;
        }
      }
    }
  }

  lemma LockBegins(s: State, step: Step)
    requires Enabled(s, step) && step.Lock?
    ensures step.t in Next(s, step).threads && Next(s, step).threads[step.t] == Trying(step.op, false)
  {
  }

  lemma IdleStays(s: State, step: Step, t: nat)
    requires Enabled(s, step) && t in s.threads && s.threads[t].Idle? && (step.Lock? ==> step.t != t)
    ensures t in Next(s, step).threads && Next(s, step).threads[t].Idle?
  {
  }

  /** In a select on the current channel, waiting for an item, or for room. */
  predicate Waits(s: State, t: nat, forRoom: bool) {
    && t in s.threads && s.threads[t].Parked? && s.threads[t].op.PutOp? == forRoom
    && s.threads[t].ch == if forRoom then s.notFull.gen else s.notEmpty.gen
  }

  /** A put that has put its item in wakes one of those who wait for an item, if there is one in its select, and
      nobody who waits for room; and the other way around for whoever has taken an item out. */
  lemma SignalsWake(s: State, step: Step, w: nat)
    requires Enabled(s, step) && step.Try?
    requires |Next(s, step).accepted| > |s.accepted| || |Next(s, step).taken| > |s.taken|
    ensures var s', put := Next(s, step), |Next(s, step).accepted| > |s.accepted|;
            && (Waits(s, w, !put) ==>
                  && step.wakes.Some? && Waits(s, step.wakes.value, !put)
                  && s'.threads[step.wakes.value] == Woken(s.threads[step.wakes.value].op, false))
            && (w in s.threads && w != step.t && Some(w) != step.wakes ==>
                  w in s'.threads && s'.threads[w] == s.threads[w])
            && (Waits(s, w, put) ==> w in s'.threads && s'.threads[w] == s.threads[w])
  {
    hide Contents;
  }

  // ---- Order ---------------------------------------------------------------------------------------

  predicate FifoOp(op: Op) {
    (op.PutOp? && op.back) || (op.TakeOp? && op.front)
  }

  ghost predicate Fifo(s: State) {
    && s.taken + s.items == s.accepted
    && forall t | t in s.threads && !s.threads[t].Idle? :: FifoOp(s.threads[t].op)
  }

  lemma StepFifo(s: State, step: Step)
    requires Fifo(s) && Enabled(s, step) && (step.Lock? ==> FifoOp(step.op))
    ensures Fifo(Next(s, step))
  {
    if step.Try? {
      var op := s.threads[step.t].op;
      assert FifoOp(op);
      if op.PutOp? {
        assert s.taken + (s.items + [op.e]) == s.accepted + [op.e];
      } else if s.items != [] {
        assert (s.taken + [s.items[0]]) + s.items[1..] == s.taken + s.items;
      }
    }
  }

  /** When all puts are at the back and all takes at the front, items come out in the order they went in. */
  lemma {:induction false} FirstInFirstOut(s: State, steps: seq<Step>, k: nat)
    requires Init(s) && IsRun(s, steps) && k <= |steps|
    requires forall i | 0 <= i < |steps| && steps[i].Lock? :: FifoOp(steps[i].op)
    ensures Fifo(After(s, steps, k))
  {
    hide Enabled, Next;
    if k > 0 {
      AfterOne(s, steps, k);
      FirstInFirstOut(s, steps, k - 1);
      StepFifo(After(s, steps, k - 1), steps[k - 1]);
    }
  }

  // ---- Interrupts ----------------------------------------------------------------------------------

  /** Thread `t` waits with a channel in hand. */
  predicate Holding(pc: Pc, op: Op, ch: nat) {
    pc == Released(op, ch) || pc == Parked(op, ch)
  }

  /** The result `true` of a wait on its way to the next attempt. */
  predicate Carries(pc: Pc, op: Op) {
    pc == Woken(op, true) || pc == Relocked(op, true) || pc == Trying(op, true)
  }

  lemma StartsIdle(s: State, t: nat, op: Op, ch: nat)
    requires Init(s) && t in s.threads
    ensures !Carries(s.threads[t], op) && !Holding(s.threads[t], op, ch)
  {
  }

  lemma StepHolding(p: State, step: Step, t: nat, op: Op, ch: nat)
    requires Enabled(p, step) && t in Next(p, step).threads && Holding(Next(p, step).threads[t], op, ch)
    ensures t in p.threads
    ensures Holding(p.threads[t], op, ch) || (step == Release(t) && At(p, CondOf(op)).gen == ch)
  {
  }

  lemma StepGen(p: State, step: Step, c: Cond)
    requires Enabled(p, step)
    ensures At(Next(p, step), c).gen == At(p, c).gen + if step == Interrupt(c) then 1 else 0
  {
  }

  /** A thread with a channel in hand captured it at some earlier release, and it was the current channel
      of its condition then. */
  lemma {:induction false} CapturedAt(s: State, steps: seq<Step>, j: nat, t: nat, op: Op, ch: nat) returns (k: nat)
    requires Init(s) && IsRun(s, steps) && j <= |steps|
    requires t in After(s, steps, j).threads && Holding(After(s, steps, j).threads[t], op, ch)
    ensures k < j && steps[k] == Release(t) && At(After(s, steps, k), CondOf(op)).gen == ch
    ensures forall m | k < m <= j :: t in After(s, steps, m).threads && Holding(After(s, steps, m).threads[t], op, ch)
  {
    hide Enabled, Next, CondOf, Holding, After, IsRun, Init, At;
    AfterNone(s, steps);
    if j == 0 {
      StartsIdle(s, t, op, ch);
    } else {
      AfterOne(s, steps, j);
      StepHolding(After(s, steps, j - 1), steps[j - 1], t, op, ch);
      if !Holding(After(s, steps, j - 1).threads[t], op, ch) {
        k := j - 1;
      } else {
        k := CapturedAt(s, steps, j - 1, t, op, ch);
      }
    }
  }

  lemma {:induction false} InterruptedBetween(s: State, steps: seq<Step>, k: nat, j: nat, c: Cond) returns (i: nat)
    requires IsRun(s, steps) && k <= j <= |steps|
    requires At(After(s, steps, k), c).gen < At(After(s, steps, j), c).gen
    ensures k <= i < j && steps[i] == Interrupt(c)
    decreases j
  {
    hide Enabled, Next;
    AfterOne(s, steps, j);
    StepGen(After(s, steps, j - 1), steps[j - 1], c);
    if steps[j - 1] == Interrupt(c) {
      i := j - 1;
    } else {
      i := InterruptedBetween(s, steps, k, j - 1, c);
    }
  }

  lemma WokenByClose(p: State, step: Step)
    requires Enabled(p, step) && step.WakeClosed?
    ensures var t := step.t;
            && t in p.threads && p.threads[t].Parked? && Holding(p.threads[t], p.threads[t].op, p.threads[t].ch)
            && p.threads[t].ch < At(p, CondOf(p.threads[t].op)).gen
  {
  }

  /** A wait ends with `true` only if its condition was interrupted after this very waiter captured its
      channel: interrupts do not reach those who start to wait later. */
  lemma InterruptReachesEarlierWaiters(s: State, steps: seq<Step>, j: nat) returns (k: nat, i: nat)
    requires Init(s) && IsRun(s, steps) && j < |steps| && steps[j].WakeClosed?
    ensures var t := steps[j].t;
            && k < i < j && steps[k] == Release(t)
            && t in After(s, steps, j).threads && After(s, steps, j).threads[t].Parked?
            && steps[i] == Interrupt(CondOf(After(s, steps, j).threads[t].op))
            && (forall m | k < m <= j :: t in After(s, steps, m).threads
                  && Holding(After(s, steps, m).threads[t],
                             After(s, steps, j).threads[t].op, After(s, steps, j).threads[t].ch))
  {
    hide Enabled, Next, CondOf, Holding, At;
    WokenByClose(After(s, steps, j), steps[j]);
    var t := steps[j].t;
    var pc := After(s, steps, j).threads[t];
    k := CapturedAt(s, steps, j, t, pc.op, pc.ch);
    i := InterruptedBetween(s, steps, k, j, CondOf(pc.op));
  }

  lemma StepCarries(p: State, step: Step, t: nat, op: Op)
    requires Enabled(p, step) && t in Next(p, step).threads && Carries(Next(p, step).threads[t], op)
    ensures t in p.threads
    ensures Carries(p.threads[t], op) || (step == WakeClosed(t) && p.threads[t].Parked? && p.threads[t].op == op)
  {
  }

  lemma {:induction false} CarriedFrom(s: State, steps: seq<Step>, j: nat, t: nat, op: Op) returns (m: nat)
    requires Init(s) && IsRun(s, steps) && j <= |steps|
    requires t in After(s, steps, j).threads && Carries(After(s, steps, j).threads[t], op)
    ensures m < j && steps[m] == WakeClosed(t) && t in After(s, steps, m).threads
    ensures After(s, steps, m).threads[t].Parked? && After(s, steps, m).threads[t].op == op
    ensures forall i | m < i <= j :: t in After(s, steps, i).threads && Carries(After(s, steps, i).threads[t], op)
  {
    hide Enabled, Next, Carries, After, IsRun, Init;
    AfterNone(s, steps);
    if j == 0 {
      StartsIdle(s, t, op, 0);
    } else {
      AfterOne(s, steps, j);
      StepCarries(After(s, steps, j - 1), steps[j - 1], t, op);
      if !Carries(After(s, steps, j - 1).threads[t], op) {
        m := j - 1;
      } else {
        m := CarriedFrom(s, steps, j - 1, t, op);
      }
    }
  }

  predicate FailsInterrupted(s: State, step: Step)
    requires Enabled(s, step)
  {
    step.Try? && Attempt(s, s.threads[step.t].op, s.threads[step.t].interrupted, step.ctxDone) == Interrupted
  }

  lemma AttemptInterrupted(s: State, step: Step)
    requires Enabled(s, step) && FailsInterrupted(s, step)
    ensures s.items == [] && step.Try? && step.t in s.threads
    ensures s.threads[step.t].Trying? && s.threads[step.t].op.TakeOp?
            && Carries(s.threads[step.t], s.threads[step.t].op)
  {
  }

  /** A take fails as interrupted only with the deque empty at that moment, and only when its last wait was
      ended by an interrupt that came after the wait began: the thread released the lock at step `k`, waited
      with the channel it captured there until step `m`, the interrupt was step `i` in between, and from `m` on
      the thread carried the news without waiting again. */
  lemma InterruptedTake(s: State, steps: seq<Step>, j: nat) returns (k: nat, i: nat, m: nat)
    requires Init(s) && IsRun(s, steps) && j < |steps| && FailsInterrupted(After(s, steps, j), steps[j])
    ensures After(s, steps, j).items == [] && steps[j].Try?
    ensures k < i < m < j && steps[k] == Release(steps[j].t) && steps[i] == Interrupt(NotEmpty)
            && steps[m] == WakeClosed(steps[j].t)
    ensures var t := steps[j].t;
            && t in After(s, steps, m).threads && After(s, steps, m).threads[t].Parked?
            && var pc := After(s, steps, m).threads[t];
               forall n | k < n <= m ::
                 t in After(s, steps, n).threads && Holding(After(s, steps, n).threads[t], pc.op, pc.ch)
    ensures forall n | k < n < j :: steps[n] != Release(steps[j].t)
    ensures steps[j].t in After(s, steps, j).threads && After(s, steps, j).threads[steps[j].t].Trying?
    ensures forall n | m < n <= j :: steps[j].t in After(s, steps, n).threads
              && Carries(After(s, steps, n).threads[steps[j].t], After(s, steps, j).threads[steps[j].t].op)
  {
    hide Enabled, Next, Carries, Holding, Attempt, FailsInterrupted;
    AttemptInterrupted(After(s, steps, j), steps[j]);
    m := CarriedFrom(s, steps, j, steps[j].t, After(s, steps, j).threads[steps[j].t].op);
    k, i := InterruptReachesEarlierWaiters(s, steps, m);
    var t := steps[j].t;
    var pc, op := After(s, steps, m).threads[t], After(s, steps, j).threads[t].op;
    forall n | k < n < j ensures steps[n] != Release(t) {
      AfterOne(s, steps, n + 1);
      NoReleaseBetween(After(s, steps, n), t, if n <= m then pc.op else op, pc.ch);
    }
  }

  /** A thread that holds a channel, or carries the news of an interrupt, is not about to release the lock. */
  lemma NoReleaseBetween(s: State, t: nat, op: Op, ch: nat)
    requires t in s.threads && (Holding(s.threads[t], op, ch) || Carries(s.threads[t], op))
    ensures !Enabled(s, Release(t))
  {
  }

  lemma {:induction false} AfterPrefix(s: State, steps: seq<Step>, more: seq<Step>, k: nat)
    requires k <= |steps|
    ensures After(s, steps + more, k) == After(s, steps, k)
  {
    hide Next, Enabled;
    if 0 < k { AfterPrefix(s, steps, more, k - 1); }
  }

  /** A run can go on with any step that is enabled at its end. */
  lemma Extend(s: State, steps: seq<Step>, step: Step) returns (longer: seq<Step>)
    requires IsRun(s, steps) && Enabled(After(s, steps, |steps|), step)
    ensures longer == steps + [step] && IsRun(s, longer)
    ensures After(s, longer, |longer|) == Next(After(s, steps, |steps|), step)
    ensures After(s, longer, |steps|) == After(s, steps, |steps|)
  {
    hide Next, Enabled;
    longer := steps + [step];
    forall k | 0 <= k <= |steps| ensures After(s, longer, k) == After(s, steps, k) {
      AfterPrefix(s, steps, [step], k);
    }
  }

  /** Thread 0 waits to take from an empty deque. */
  lemma WaitingRun(capacity: nat) returns (s: State, steps: seq<Step>)
    ensures Init(s) && s.capacity == capacity && IsRun(s, steps)
    ensures After(s, steps, |steps|) ==
            s.(notEmpty := CondState(1, 0), threads := map[0 := Parked(TakeOp(true, Take), 0)])
  {
    hide IsRun, After;
    s := State.State(capacity, [], None, CondState(0, 0), CondState(0, 0), map[0 := Idle], [], []);
    steps := NoSteps(s);
    steps := Extend(s, steps, Lock(0, TakeOp(true, Take)));
    steps := Extend(s, steps, Try(0, false, None));
    steps := Extend(s, steps, Release(0));
    steps := Extend(s, steps, Select(0));
  }

  lemma NoSteps(s: State) returns (none: seq<Step>)
    ensures IsRun(s, none) && |none| == 0 && After(s, none, 0) == s
  {
    none := [];
  }

  /** Interrupted takes do happen. */
  lemma InterruptedTakeHappens(capacity: nat) returns (s: State, steps: seq<Step>, j: nat)
    ensures Init(s) && s.capacity == capacity && IsRun(s, steps) && j < |steps|
    ensures FailsInterrupted(After(s, steps, j), steps[j])
  {
    hide IsRun, After;
    s, steps := WaitingRun(capacity);
    steps := Extend(s, steps, Interrupt(NotEmpty));
    steps := Extend(s, steps, WakeClosed(0));
    steps := Extend(s, steps, Relock(0));
    steps := Extend(s, steps, Deregister(0));
    j := |steps|;
    steps := Extend(s, steps, Try(0, false, None));
  }
}
