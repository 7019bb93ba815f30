/**
 The timer wheel as a value, next to the countdown it implements: every pending timer has a number of
 ticks left, and each tick takes one off.
 */
module WheelModel {
  import opened Arithmetic

  /** Identifiers come from a generator of unique ones; only equality is used. */
  type TimerId(==)

  /** A pending timer. `index` is the slot it sits in, `rounds` how often the cursor has still to pass it. */
  datatype Entry = Entry(index: int, rounds: int, delay: int, times: int, expTimes: int)

  /** Identifiers are kept as the keys of `timers`, so each timer sits in one slot only. */
  datatype Wheel = Wheel(tick: int, count: int, cursor: int, timers: map<TimerId, Entry>)

  predicate Valid(w: Wheel) {
    && 0 < w.tick && 0 < w.count && 0 <= w.cursor < w.count
    && forall id | id in w.timers ::
         && 0 <= w.timers[id].index < w.count && 0 <= w.timers[id].rounds
         && w.tick <= w.timers[id].delay && 0 <= w.timers[id].expTimes < w.timers[id].times
  }

  // ---- Placing a timer -----------------------------------------------------------------------------

  /** At least one tick. */
  function Clamp(tick: int, delay: int): (d: int)
    ensures tick <= d && delay <= d && (d == tick || d == delay)
  {
    if delay < tick then tick else delay
  }

  /** How many slots past the cursor a (clamped) delay leads within its last round. */
  function RelativeIndex(tick: int, count: int, delay: int): int
    requires 0 < tick && 0 < count
    requires tick * count > 0
  {
    delay % (tick * count) / tick + if delay % tick != 0 then 1 else 0
  }

  function RemainingRounds(tick: int, count: int, delay: int): int
    requires tick * count > 0
  {
    delay / (tick * count) - if delay % (tick * count) == 0 then 1 else 0
  }

  lemma RoundPositive(tick: int, count: int)
    requires 0 < tick && 0 < count
    ensures tick * count > 0
  {
  }

  /** `scheduleTimeOut`: the slot and the rounds a timer gets at the current cursor. A slot number past
      the end wraps around, and then costs a round more. */
  function Placed(tick: int, count: int, cursor: int, e: Entry): Entry
    requires 0 < tick && 0 < count
  {
    RoundPositive(tick, count);
    var delay := Clamp(tick, e.delay);
    var stop := cursor + RelativeIndex(tick, count, delay);
    var rounds := RemainingRounds(tick, count, delay);
    if stop >= count then e.(delay := delay, index := stop - count, rounds := rounds + 1)
    else e.(delay := delay, index := stop, rounds := rounds)
  }

  // ---- Ticks left ----------------------------------------------------------------------------------

  /** Ticks until the cursor reaches a slot: a whole round if it stands on it. */
  function Dist(w: Wheel, index: int): int {
    if index > w.cursor then index - w.cursor else index - w.cursor + w.count
  }

  /** Ticks until the timer fires. */
  function Left(w: Wheel, e: Entry): int {
    Dist(w, e.index) + e.rounds * w.count
  }

  // ---- When a timer fires ---------------------------------------------------------------------------

  /** The number of ticks a delay takes, rounded up; at least one. */
  function Ticks(tick: int, delay: int): int
    requires 0 < tick
  {
    (Clamp(tick, delay) + tick - 1) / tick
  }

  /** `Ticks` is the least number of ticks that lasts as long as the delay, and one for a delay below a tick. */
  lemma TicksLeast(tick: int, delay: int)
    requires 0 < tick
    ensures 1 <= Ticks(tick, delay)
    ensures (Ticks(tick, delay) - 1) * tick < Clamp(tick, delay) <= Ticks(tick, delay) * tick
    ensures tick <= delay ==> (Ticks(tick, delay) - 1) * tick < delay <= Ticks(tick, delay) * tick
    ensures delay <= tick ==> Ticks(tick, delay) == 1
  {
    var d := Clamp(tick, delay) + tick - 1;
    assert d == d / tick * tick + d % tick;
  }

  /** The number of ticks from scheduling to firing. */
  function Gap(tick: int, count: int, cursor: int, delay: int): int
    requires 0 < tick && 0 < count
  {
    RoundPositive(tick, count);
    Ticks(tick, delay)
    + if cursor + RelativeIndex(tick, count, Clamp(tick, delay)) < count then 0 else count
  }

  lemma LastRound(tick: int, count: int, r: int)
    requires 0 < tick && 0 < count && 0 <= r < tick * count
    ensures 0 <= r / tick < count && r == r / tick * tick + r % tick
  {
    assert r == r / tick * tick + r % tick;
    MulOrder(count, r / tick, tick);
    MulOrder(r / tick, -1, tick);
  }

  lemma Regroup(tick: int, count: int, q: int, j: int)
    ensures q * (tick * count) + j * tick == (q * count + j) * tick
  {
    assert q * (tick * count) == q * count * tick;
    assert (q * count + j) * tick == q * count * tick + j * tick;
  }

  /** Splitting a delay into rounds, whole ticks of the last round, and the rest. */
  lemma Split(tick: int, count: int, d: int)
    requires 0 < tick && 0 < count && 0 <= d && tick * count > 0
    ensures var q, j, s := d / (tick * count), d % (tick * count) / tick, d % tick;
            && d == (q * count + j) * tick + s && 0 <= j < count && 0 <= s < tick && 0 <= q
            && (d % (tick * count) == 0 <==> j == 0 && s == 0)
  {
    var n := tick * count;
    var q, r := d / n, d % n;
    assert d == q * n + r && 0 <= q;
    LastRound(tick, count, r);
    Regroup(tick, count, q, r / tick);
    DivideUnique(d, tick, q * count + r / tick, r % tick);
    if r == 0 { DivideUnique(0, tick, 0, 0); }
  }

  lemma CeilOf(tick: int, m: int, s: int)
    requires 0 < tick && 0 <= s < tick
    ensures (m * tick + s + tick - 1) / tick == m + if s != 0 then 1 else 0
  {
    if s == 0 {
      DivideUnique(m * tick + s + tick - 1, tick, m, tick - 1);
    } else {
      assert (m + 1) * tick == m * tick + tick;
      DivideUnique(m * tick + s + tick - 1, tick, m + 1, s - 1);
    }
  }

  /** The exact firing tick: the delay in ticks, rounded up, if the slot does not wrap around, and one whole
      round later if it does. */
  lemma PlacedFiresAfterGap(w: Wheel, e: Entry)
    requires 0 < w.tick && 0 < w.count && 0 <= w.cursor < w.count
    ensures var p := Placed(w.tick, w.count, w.cursor, e);
            && Left(w, p) == Gap(w.tick, w.count, w.cursor, e.delay)
            && 0 <= p.index < w.count && 0 <= p.rounds
            && p.delay == Clamp(w.tick, e.delay) && p.times == e.times && p.expTimes == e.expTimes
  {
    RoundPositive(w.tick, w.count);
    var d := Clamp(w.tick, e.delay);
    Split(w.tick, w.count, d);
    var q, j, s := d / (w.tick * w.count), d % (w.tick * w.count) / w.tick, d % w.tick;
    CeilOf(w.tick, q * w.count + j, s);
    assert Ticks(w.tick, e.delay) == q * w.count + j + if s != 0 then 1 else 0;
    RoundsBefore(q, w.count);
    assert RelativeIndex(w.tick, w.count, d) == j + if s != 0 then 1 else 0;
    hide Ticks, RelativeIndex;
    assert 0 <= Placed(w.tick, w.count, w.cursor, e).rounds;
  }

  lemma RoundsBefore(q: int, n: int)
    ensures (q + 1) * n == q * n + n && (q - 1) * n == q * n - n
  {
  }

  /** The same without the slot arithmetic: `n` ticks from the cursor one comes to the slot `(n - 1) % count + 1`
      further on, and a timer whose slot lies at the end of the wheel or beyond it waits a round more. Only a
      delay of whole rounds never does. */
  lemma GapInTicks(tick: int, count: int, cursor: int, delay: int)
    requires 0 < tick && 0 < count
    ensures var d, n := if delay < tick then tick else delay, Ticks(tick, delay);
            && tick * count > 0
            && Gap(tick, count, cursor, delay) ==
                 if d % (tick * count) == 0 then if cursor < count then n else n + count
                 else n + if count <= cursor + (n - 1) % count + 1 then count else 0
  {
    RoundPositive(tick, count);
    var d := Clamp(tick, delay);
    Split(tick, count, d);
    var q, j, s := d / (tick * count), d % (tick * count) / tick, d % tick;
    CeilOf(tick, q * count + j, s);
    var e := j + if s != 0 then 1 else 0;
    if e != 0 { DivideUnique(q * count + e - 1, count, q, e - 1); }
  }

  // ---- Steps ---------------------------------------------------------------------------------------

  /** The identifiers whose timers fire on the next tick: those in the slot the cursor moves to with no
      rounds left. */
  function Expired(w: Wheel): set<TimerId>
    requires Valid(w)
  {
    set id | id in w.timers && w.timers[id].index == Advance(w) && w.timers[id].rounds <= 0
  }

  function Advance(w: Wheel): int {
    if w.cursor + 1 == w.count then 0 else w.cursor + 1
  }

  /** One tick: the cursor moves on, what is expired in its slot is taken out and, if it has firings left,
      scheduled again from there; the rest of the slot has one round less to wait. */
  function Tick(w: Wheel): Wheel
    requires Valid(w)
  {
    var fired := Expired(w);
    w.(cursor := Advance(w),
       timers := map id | id in w.timers && (id in fired ==> w.timers[id].expTimes + 1 < w.timers[id].times) ::
         var e := w.timers[id];
         if id in fired then Placed(w.tick, w.count, Advance(w), e.(expTimes := e.expTimes + 1))
         else if e.index == Advance(w) then e.(rounds := e.rounds - 1)
         else e)
  }

  const FOREVER := 0x0FFFFFFF

  /** `AfterFunc` with a fresh identifier. */
  function Schedule(w: Wheel, id: TimerId, interval: int, times: int): (r: Wheel)
    requires Valid(w) && 0 < interval
    ensures Valid(r)
  {
    var e := Entry(0, 0, interval, Firings(times), 0);
    PlacedFiresAfterGap(w, e);
    w.(timers := w.timers[id := Placed(w.tick, w.count, w.cursor, e)])
  }

  /** How often a timer asked to fire `times` times does fire. */
  function Firings(times: int): int {
    if times <= 0 then FOREVER else times
  }

  function Cancel(w: Wheel, id: TimerId): Wheel {
    w.(timers := w.timers - {id})
  }

  /** What a timer does after it has fired. */
  predicate FiresAgain(e: Entry) {
    e.expTimes + 1 < e.times
  }

  /** The wheel counts down: a tick takes one off what every pending timer has left, fires exactly those
      with one left, and starts those with firings left over from the new cursor. */
  lemma TickCountsDown(w: Wheel, id: TimerId)
    requires Valid(w) && id in w.timers
    ensures var e, w' := w.timers[id], Tick(w);
            && 1 <= Left(w, e)
            && (id in Expired(w) <==> Left(w, e) == 1)
            && (id in w'.timers <==> Left(w, e) != 1 || FiresAgain(e))
            && (Left(w, e) != 1 ==> Left(w', w'.timers[id]) == Left(w, e) - 1 && w'.timers[id].expTimes == e.expTimes)
            && (Left(w, e) == 1 && FiresAgain(e) ==>
                  && Left(w', w'.timers[id]) == Gap(w.tick, w.count, w'.cursor, e.delay)
                  && w'.timers[id].expTimes == e.expTimes + 1)
            && (id in w'.timers ==> w'.timers[id].delay == e.delay && w'.timers[id].times == e.times)
  {
    var e := w.timers[id];
    LeftSmall(w, e);
    PlacedFiresAfterGap(w.(cursor := Advance(w)), e.(expTimes := e.expTimes + 1));
    assert (e.rounds - 1) * w.count == e.rounds * w.count - w.count;
  }

  lemma LeftSmall(w: Wheel, e: Entry)
    requires 0 < w.count && 0 <= w.cursor < w.count && 0 <= e.index < w.count && 0 <= e.rounds
    ensures 1 <= Left(w, e)
    ensures Left(w, e) == 1 <==> e.index == Advance(w) && e.rounds == 0
  {
    MulOrder(0, e.rounds, w.count);
    MulOrder(1, e.rounds, w.count);
  }

  lemma TickValid(w: Wheel)
    requires Valid(w)
    ensures Valid(Tick(w))
    ensures Tick(w).tick == w.tick && Tick(w).count == w.count && Tick(w).timers.Keys <= w.timers.Keys
    ensures Tick(w).cursor == Advance(w) && Expired(w) <= w.timers.Keys
  {
    forall id | id in Tick(w).timers
      ensures var p := Tick(w).timers[id];
              0 <= p.index < w.count && 0 <= p.rounds && w.tick <= p.delay && 0 <= p.expTimes < p.times
    {
      var e := w.timers[id];
      PlacedFiresAfterGap(w.(cursor := Advance(w)), e.(expTimes := e.expTimes + 1));
    }
  }

  // ---- A tick in two loops -------------------------------------------------------------------------

  /** The timer is expired in the slot the cursor stands on. */
  predicate ExpiredHere(w: Wheel, e: Entry) {
    e.index == w.cursor && e.rounds <= 0
  }

  /** After `fetchExpiredTimeouts` has looked at the timers in `seen`: expired ones are out, the others have
      a round less. The cursor has advanced already. */
  function Fetched(w: Wheel, seen: set<TimerId>): Wheel {
    w.(timers := map id | id in w.timers && !(id in seen && ExpiredHere(w, w.timers[id])) ::
         var e := w.timers[id];
         if id in seen && e.index == w.cursor then e.(rounds := e.rounds - 1) else e)
  }

  /** After `notifyExpiredTimeOut` has dealt with the expired timers in `done`. */
  function Notified(w: Wheel, f: Wheel, done: set<TimerId>): Wheel
    requires 0 < w.tick && 0 < w.count
  {
    f.(timers := f.timers + map id | id in done && id in w.timers && FiresAgain(w.timers[id]) ::
         Placed(w.tick, w.count, w.cursor, w.timers[id].(expTimes := w.timers[id].expTimes + 1)))
  }

  lemma FetchedNothing(w: Wheel)
    ensures Fetched(w, {}) == w
  {
    assert Fetched(w, {}).timers == w.timers;
  }

  /** The timers of other slots are not touched. */
  lemma FetchedSlot(w: Wheel, seen: set<TimerId>)
    requires forall id | id in w.timers && w.timers[id].index == w.cursor :: id in seen
    ensures Fetched(w, seen) == Fetched(w, w.timers.Keys)
  {
  }

  lemma FetchedStep(w: Wheel, seen: set<TimerId>, id: TimerId)
    requires id in w.timers && w.timers[id].index == w.cursor && id !in seen
    ensures var f, e := Fetched(w, seen), w.timers[id];
            && id in f.timers && f.timers[id] == e
            && Fetched(w, seen + {id}) ==
                 f.(timers := if e.rounds <= 0 then f.timers - {id} else f.timers[id := e.(rounds := e.rounds - 1)])
  {
  }

  lemma FetchedValid(w: Wheel)
    requires Valid(w)
    ensures var f := Fetched(w, w.timers.Keys);
            Valid(f) && 0 < f.tick == w.tick && 0 < f.count == w.count && f.cursor == w.cursor
  {
  }

  lemma NotifiedNothing(w: Wheel, f: Wheel)
    requires Valid(w)
    ensures Notified(w, f, {}) == f
  {
    assert Notified(w, f, {}).timers == f.timers;
  }

  /** The entry of a timer that goes into its next countdown at the cursor. */
  function Restarted(w: Wheel, e: Entry): Entry
    requires 0 < w.tick && 0 < w.count
  {
    Placed(w.tick, w.count, w.cursor, e.(expTimes := e.expTimes + 1))
  }

  lemma NotifiedNext(w: Wheel, f: Wheel, done: set<TimerId>, id: TimerId)
    requires 0 < w.tick && 0 < w.count && id !in done && id in w.timers && id !in f.timers
    ensures var n, e := Notified(w, f, done), w.timers[id];
            && id !in n.timers
            && Notified(w, f, done + {id}) ==
                 if FiresAgain(e) then n.(timers := n.timers[id := Restarted(w, e)]) else n
  {
    hide Placed, FiresAgain;
    var n, e := Notified(w, f, done), w.timers[id];
    assert Notified(w, f, done + {id}).timers ==
           if FiresAgain(e) then n.timers[id := Restarted(w, e)] else n.timers;
  }

  lemma RestartedValid(w: Wheel, id: TimerId, n: Wheel)
    requires Valid(w) && id in w.timers && FiresAgain(w.timers[id])
    requires Valid(n) && n.tick == w.tick && n.count == w.count
    ensures Valid(n.(timers := n.timers[id := Restarted(w, w.timers[id])]))
  {
    hide Placed;
    var e := w.timers[id];
    PlacedFiresAfterGap(w, e.(expTimes := e.expTimes + 1));
  }

  lemma NotifiedStep(w: Wheel, f: Wheel, done: set<TimerId>, id: TimerId)
    requires Valid(w) && Valid(Notified(w, f, done)) && id !in done && id in w.timers && id !in f.timers
    requires w.cursor == f.cursor && w.tick == f.tick && w.count == f.count
    ensures var n, e := Notified(w, f, done), w.timers[id];
            && id !in n.timers
            && n.tick == w.tick && n.count == w.count && n.cursor == w.cursor
            && Notified(w, f, done + {id}) ==
                 (if FiresAgain(e) then n.(timers := n.timers[id := Restarted(w, e)]) else n)
            && Valid(Notified(w, f, done + {id}))
  {
    hide Placed, FiresAgain;
    NotifiedNext(w, f, done, id);
    if FiresAgain(w.timers[id]) {
      RestartedValid(w, id, Notified(w, f, done));
    }
  }

  lemma TwoLoopsMakeATick(w: Wheel)
    requires Valid(w)
    ensures var v := w.(cursor := Advance(w));
            Notified(v, Fetched(v, v.timers.Keys), Expired(w)) == Tick(w)
  {
  }

  // ---- Runs ----------------------------------------------------------------------------------------

  /** What can happen to a wheel. `Start` is a successful `AfterFunc`. */
  datatype Event = TickEvent | Start(id: TimerId, interval: int, times: int) | Stop(id: TimerId)

  function Apply(w: Wheel, ev: Event): Wheel
    requires Valid(w)
  {
    match ev
    case TickEvent => Tick(w)
    case Start(id, interval, times) => if 0 < interval then Schedule(w, id, interval, times) else w
    case Stop(id) => Cancel(w, id)
  }

  lemma ApplyValid(w: Wheel, ev: Event)
    requires Valid(w)
    ensures Valid(Apply(w, ev)) && Apply(w, ev).tick == w.tick && Apply(w, ev).count == w.count
  {
    match ev
    case TickEvent => TickValid(w);
    case _ =>
  }

  /** The wheel after the first `k` events. */
  ghost function After(w: Wheel, evs: seq<Event>, k: nat): (r: Wheel)
    requires Valid(w) && k <= |evs|
    ensures Valid(r) && r.tick == w.tick && r.count == w.count
  {
    if k == 0 then w
    else ApplyValid(After(w, evs, k - 1), evs[k - 1]); Apply(After(w, evs, k - 1), evs[k - 1])
  }

  /** How many of the first `k` events are ticks. */
  ghost function TickCount(evs: seq<Event>, k: nat): nat
    requires k <= |evs|
  {
    if k == 0 then 0 else TickCount(evs, k - 1) + if evs[k - 1].TickEvent? then 1 else 0
  }

  /** Nobody cancels the timer or reuses its identifier. */
  predicate LeftAlone(id: TimerId, evs: seq<Event>) {
    forall k | 0 <= k < |evs| :: evs[k].TickEvent? || evs[k].id != id
  }

  /** Where the cursor stands after `n` more ticks. */
  function CursorAfter(w: Wheel, n: int): int
    requires 0 < w.count
  {
    (w.cursor + n) % w.count
  }

  /** The tick, counted from when the timer was started at cursor `start`, on which it fires for the `i`th
      time: a timer that fires starts over from where the cursor is then. */
  function Due(w: Wheel, delay: int, i: nat): int
    requires 0 < w.tick && 0 < w.count
  {
    if i == 0 then 0
    else Due(w, delay, i - 1) + Gap(w.tick, w.count, CursorAfter(w, Due(w, delay, i - 1)), delay)
  }

  /** The timer has fired `f` times within `n` ticks and counts down to its next due tick. */
  ghost predicate OnSchedule(w0: Wheel, w: Wheel, id: TimerId, delay: int, times: int, n: nat, f: nat)
    requires Valid(w0) && Valid(w)
  {
    && w.tick == w0.tick && w.count == w0.count && w.cursor == CursorAfter(w0, n)
    && f <= times && Due(w0, delay, f) <= n
    && (f == times ==> id !in w.timers)
    && (f < times ==>
          && id in w.timers
          && w.timers[id].delay == Clamp(w0.tick, delay) && w.timers[id].times == times && w.timers[id].expTimes == f
          && Left(w, w.timers[id]) == Due(w0, delay, f + 1) - n)
  }

  lemma CursorAt(w0: Wheel, n: nat)
    requires Valid(w0)
    ensures CursorAfter(w0, n + 1) == if CursorAfter(w0, n) + 1 == w0.count then 0 else CursorAfter(w0, n) + 1
  {
    var q, c := (w0.cursor + n) / w0.count, (w0.cursor + n) % w0.count;
    assert w0.cursor + n == q * w0.count + c;
    if c + 1 == w0.count {
      assert (q + 1) * w0.count == q * w0.count + w0.count;
      DivideUnique(w0.cursor + n + 1, w0.count, q + 1, 0);
    } else {
      DivideUnique(w0.cursor + n + 1, w0.count, q, c + 1);
    }
  }

  lemma OnGoodWheel(w0: Wheel, w: Wheel)
    requires Valid(w0) && Valid(w)
    ensures 0 < w0.tick && 0 < w0.count && 0 < w.tick && 0 < w.count
  {
  }

  lemma DueNext(w: Wheel, delay: int, i: nat)
    requires 0 < w.tick && 0 < w.count
    ensures Due(w, delay, i + 2) ==
            Due(w, delay, i + 1) + Gap(w.tick, w.count, CursorAfter(w, Due(w, delay, i + 1)), delay)
  {
  }

  lemma GapClamped(tick: int, count: int, cursor: int, delay: int)
    requires 0 < tick && 0 < count
    ensures Gap(tick, count, cursor, Clamp(tick, delay)) == Gap(tick, count, cursor, delay)
  {
  }

  lemma TickOnSchedule(w0: Wheel, w: Wheel, id: TimerId, delay: int, times: int, n: nat, f: nat)
    requires Valid(w0) && Valid(w) && OnSchedule(w0, w, id, delay, times, n, f)
    ensures Valid(Tick(w))
    ensures id in Expired(w) <==> f < times && n + 1 == Due(w0, delay, f + 1)
    ensures OnSchedule(w0, Tick(w), id, delay, times, n + 1, if id in Expired(w) then f + 1 else f)
  {
    hide Gap, Tick, Expired, Left, Placed, CursorAfter, Due, Valid, Clamp;
    OnGoodWheel(w0, w);
    TickValid(w);
    CursorAt(w0, n);
    DueNext(w0, delay, f);
    if f < times {
      TickCountsDown(w, id);
      GapClamped(w.tick, w.count, Tick(w).cursor, delay);
    }
  }

  lemma PlainOnSchedule(w0: Wheel, w: Wheel, id: TimerId, delay: int, times: int, n: nat, f: nat, ev: Event)
    requires Valid(w0) && Valid(w) && OnSchedule(w0, w, id, delay, times, n, f)
    requires !ev.TickEvent? && ev.id != id
    ensures Valid(Apply(w, ev)) && OnSchedule(w0, Apply(w, ev), id, delay, times, n, f)
  {
    ApplyValid(w, ev);
  }

  lemma StartsOnSchedule(w: Wheel, id: TimerId, interval: int, times: int)
    requires Valid(w) && 0 < interval
    ensures OnSchedule(w, Schedule(w, id, interval, times), id, interval, Firings(times), 0, 0)
  {
    hide Gap, Placed;
    PlacedFiresAfterGap(w, Entry(0, 0, interval, Firings(times), 0));
    DivideUnique(w.cursor, w.count, 0, w.cursor);
    assert Due(w, interval, 0) == 0;
    assert Due(w, interval, 1) == Gap(w.tick, w.count, w.cursor, interval);
  }

  lemma {:induction false} StaysOnSchedule(w: Wheel, id: TimerId, interval: int, times: int, evs: seq<Event>, k: nat)
    returns (f: nat)
    requires Valid(w) && 0 < interval && LeftAlone(id, evs) && k <= |evs|
    ensures var p := After(Schedule(w, id, interval, times), evs, k);
            OnSchedule(w, p, id, interval, if 0 < times then times else 268_435_455, TickCount(evs, k), f)
  {
    hide OnSchedule, Schedule, Valid, Tick;
    var w1 := Schedule(w, id, interval, times);
    if k == 0 {
      StartsOnSchedule(w, id, interval, times);
      f := 0;
    } else {
      var g := StaysOnSchedule(w, id, interval, times, evs, k - 1);
      var p := After(w1, evs, k - 1);
      if evs[k - 1].TickEvent? {
        TickOnSchedule(w, p, id, interval, Firings(times), TickCount(evs, k - 1), g);
        f := if id in Expired(p) then g + 1 else g;
      } else {
        PlainOnSchedule(w, p, id, interval, Firings(times), TickCount(evs, k - 1), g, evs[k - 1]);
        f := g;
      }
    }
  }

  lemma {:induction false} DueIncreases(w: Wheel, delay: int, i: nat, j: nat)
    requires 0 < w.tick && 0 < w.count && i < j
    ensures Due(w, delay, i) < Due(w, delay, j)
    decreases j
  {
    TicksLeast(w.tick, delay);
    if i < j - 1 { DueIncreases(w, delay, i, j - 1); }
  }

  lemma OnlyNextDue(w: Wheel, delay: int, n: int, f: nat, i: nat)
    requires 0 < w.tick && 0 < w.count && Due(w, delay, f) <= n && 1 <= i && n + 1 == Due(w, delay, i)
    ensures f < i
    ensures n < Due(w, delay, f + 1) ==> i == f + 1
  {
    hide Due;
    if i < f { DueIncreases(w, delay, i, f); }
    if f + 1 < i { DueIncreases(w, delay, f + 1, i); }
  }

  lemma NotYetDue(w0: Wheel, w: Wheel, id: TimerId, delay: int, times: int, n: nat, f: nat)
    requires Valid(w0) && Valid(w) && OnSchedule(w0, w, id, delay, times, n, f)
    ensures 0 < w0.tick && 0 < w0.count && f <= times && Due(w0, delay, f) <= n
    ensures f < times ==> n < Due(w0, delay, f + 1)
  {
    if f < times { LeftSmall(w, w.timers[id]); }
  }

  lemma FiresOnSchedule(w: Wheel, id: TimerId, interval: int, times: int, evs: seq<Event>, k: nat)
    requires Valid(w) && 0 < interval && LeftAlone(id, evs)
    requires k < |evs| && evs[k].TickEvent?
    ensures id in Expired(After(Schedule(w, id, interval, times), evs, k)) <==>
            exists i: nat :: 1 <= i <= Firings(times) && TickCount(evs, k + 1) == Due(w, interval, i)
  {
    hide OnSchedule, Schedule, Valid, Tick, Due, Expired;
    var f := StaysOnSchedule(w, id, interval, times, evs, k);
    var p := After(Schedule(w, id, interval, times), evs, k);
    var n := TickCount(evs, k);
    TickOnSchedule(w, p, id, interval, Firings(times), n, f);
    NotYetDue(w, p, id, interval, Firings(times), n, f);
    forall i: nat | 1 <= i <= Firings(times) && n + 1 == Due(w, interval, i) ensures f < Firings(times) && i == f + 1 {
      OnlyNextDue(w, interval, n, f, i);
    }
  }

  /** Whatever else is started, cancelled or fires in between: a timer fires on exactly the ticks on which it is
      due for the first, second, ... last time. Asked for a positive number of firings the last is the one with
      that number, asked for none or fewer it is number 268435455. */
  lemma FiresExactlyWhenDue(w: Wheel, id: TimerId, interval: int, times: int, evs: seq<Event>, k: nat)
    requires Valid(w) && 0 < interval && LeftAlone(id, evs)
    requires k < |evs| && evs[k].TickEvent?
    ensures 0 < times ==>
              (id in Expired(After(Schedule(w, id, interval, times), evs, k)) <==>
                 exists i: nat :: 1 <= i <= times && TickCount(evs, k + 1) == Due(w, interval, i))
    ensures times <= 0 ==>
              (id in Expired(After(Schedule(w, id, interval, times), evs, k)) <==>
                 exists i: nat :: 1 <= i <= 268_435_455 && TickCount(evs, k + 1) == Due(w, interval, i))
  {
    hide After, Schedule, Expired, Due, TickCount, Valid;
    FiresOnSchedule(w, id, interval, times, evs, k);
  }

  // ---- Cancelling ----------------------------------------------------------------------------------

  predicate NotStarted(id: TimerId, evs: seq<Event>) {
    forall k | 0 <= k < |evs| && evs[k].Start? :: evs[k].id != id
  }

  lemma AbsentStays(w: Wheel, ev: Event, id: TimerId)
    requires Valid(w) && id !in w.timers && (ev.Start? ==> ev.id != id)
    ensures Valid(Apply(w, ev)) && id !in Apply(w, ev).timers && id !in Expired(w)
  {
    ApplyValid(w, ev);
    TickValid(w);
  }

  /** A cancelled timer is gone and never fires again, unless it is started anew; the others are as before. */
  lemma {:induction false} CancelledForGood(w: Wheel, id: TimerId, evs: seq<Event>, k: nat)
    requires Valid(w) && NotStarted(id, evs) && k <= |evs|
    ensures Valid(Cancel(w, id)) && id !in After(Cancel(w, id), evs, k).timers
    ensures id !in Expired(After(Cancel(w, id), evs, k))
    ensures forall other | other in w.timers && other != id ::
              other in Cancel(w, id).timers && Cancel(w, id).timers[other] == w.timers[other]
    ensures Cancel(w, id).timers.Keys <= w.timers.Keys
    ensures var c := Cancel(w, id); c.tick == w.tick && c.count == w.count && c.cursor == w.cursor
  {
    hide Apply, Expired;
    if k == 0 {
      AbsentStays(Cancel(w, id), TickEvent, id);
    } else {
      CancelledForGood(w, id, evs, k - 1);
      AbsentStays(After(Cancel(w, id), evs, k - 1), evs[k - 1], id);
      AbsentStays(After(Cancel(w, id), evs, k), TickEvent, id);
    }
  }

  lemma OneMore(i: int, x: int)
    ensures i * x == (i - 1) * x + x
  {
  }

  lemma GapBounds(w: Wheel, delay: int, cursor: int)
    requires 0 < w.tick && 0 < w.count
    ensures Ticks(w.tick, delay) <= Gap(w.tick, w.count, cursor, delay) <= Ticks(w.tick, delay) + w.count
    ensures Clamp(w.tick, delay) <= Gap(w.tick, w.count, cursor, delay) * w.tick
  {
    TicksLeast(w.tick, delay);
    MulOrder(Ticks(w.tick, delay), Gap(w.tick, w.count, cursor, delay), w.tick);
  }

  /** Counted in whole ticks the `i`th firing takes at least `i` delays, and at most `i` rounds more than `i`
      times the delay rounded up. That is the time from the start only if the timer was started on a tick; see
      `Elapsed`. */
  lemma {:induction false} TicksCoverDelays(w: Wheel, delay: int, i: nat)
    requires 0 < w.tick && 0 < w.count
    ensures i * Clamp(w.tick, delay) <= Due(w, delay, i) * w.tick
    ensures i * Ticks(w.tick, delay) <= Due(w, delay, i) <= i * (Ticks(w.tick, delay) + w.count)
  {
    hide Clamp, Ticks, Gap;
    if i > 0 {
      TicksCoverDelays(w, delay, i - 1);
      var c := (w.cursor + Due(w, delay, i - 1)) % w.count;
      GapBounds(w, delay, c);
      var before, g := Due(w, delay, i - 1), Gap(w.tick, w.count, c, delay);
      assert Due(w, delay, i) == before + g;
      assert (before + g) * w.tick == before * w.tick + g * w.tick;
      OneMore(i, Clamp(w.tick, delay));
      OneMore(i, Ticks(w.tick, delay));
      OneMore(i, Ticks(w.tick, delay) + w.count);
    }
  }

  // ---- Time ----------------------------------------------------------------------------------------

  /** The time from the start of a timer to its `i`th firing, if it was started `phase` after a tick: the
      ticker does not wait for it, so the first tick comes early by that. */
  function Elapsed(w: Wheel, delay: int, i: nat, phase: int): int
    requires 0 < w.tick && 0 < w.count
  {
    Due(w, delay, i) * w.tick - phase
  }

  /** How often the slot wraps around, and costs a round, in the first `i` schedulings. */
  function Wraps(w: Wheel, delay: int, i: nat): nat
    requires 0 < w.tick && 0 < w.count
  {
    if i == 0 then 0
    else Wraps(w, delay, i - 1) + if WrapsAt(w, delay, CursorAfter(w, Due(w, delay, i - 1))) then 1 else 0
  }

  /** The guard of `scheduleTimeOut`. */
  predicate WrapsAt(w: Wheel, delay: int, cursor: int)
    requires 0 < w.tick && 0 < w.count
  {
    RoundPositive(w.tick, w.count);
    w.count <= cursor + RelativeIndex(w.tick, w.count, Clamp(w.tick, delay))
  }

  lemma GapIs(w: Wheel, delay: int, cursor: int)
    requires 0 < w.tick && 0 < w.count
    ensures Gap(w.tick, w.count, cursor, delay)
            == Ticks(w.tick, delay) + if WrapsAt(w, delay, cursor) then w.count else 0
  {
  }

  lemma {:induction false} DueIs(w: Wheel, delay: int, i: nat)
    requires 0 < w.tick && 0 < w.count
    ensures Due(w, delay, i) == i * Ticks(w.tick, delay) + Wraps(w, delay, i) * w.count
  {
    hide Ticks, Gap, WrapsAt, CursorAfter;
    if 0 < i {
      DueIs(w, delay, i - 1);
      GapIs(w, delay, CursorAfter(w, Due(w, delay, i - 1)));
      OneMore(i, Ticks(w.tick, delay));
      OneMore(Wraps(w, delay, i - 1) + 1, w.count);
    }
  }

  /** What rounding up to whole ticks adds to a delay. */
  function Slack(tick: int, delay: int): (slack: int)
    requires 0 < tick
    ensures 0 <= slack < tick
  {
    TicksLeast(tick, delay);
    OneMore(Ticks(tick, delay), tick);
    Ticks(tick, delay) * tick - Clamp(tick, delay)
  }

  lemma ElapsedIs(w: Wheel, delay: int, i: nat, phase: int)
    requires 0 < w.tick && 0 < w.count
    ensures Elapsed(w, delay, i, phase)
            == i * Clamp(w.tick, delay) + i * Slack(w.tick, delay) + Wraps(w, delay, i) * w.count * w.tick - phase
  {
    hide Ticks, Clamp, Wraps, Due;
    DueIs(w, delay, i);
    var n, a, b := Ticks(w.tick, delay), Clamp(w.tick, delay), Slack(w.tick, delay);
    assert n * w.tick == a + b;
    Distribute(i * n, Wraps(w, delay, i) * w.count, w.tick);
    Associate(i, n, w.tick);
    Distribute(a, b, i);
  }

  lemma Distribute(a: int, b: int, c: int)
    ensures (a + b) * c == a * c + b * c && c * (a + b) == c * a + c * b
  {
  }

  /** The `i`th firing comes before `i` delays have passed exactly if the slot has not wrapped around yet and
      the rounding up of the `i` delays does not make up for the part of the tick that was gone at the start. */
  lemma EarlyIff(w: Wheel, delay: int, i: nat, phase: int)
    requires 0 < w.tick && 0 < w.count && 0 <= phase < w.tick
    ensures Elapsed(w, delay, i, phase) < i * Clamp(w.tick, delay)
            <==> Wraps(w, delay, i) == 0 && i * Slack(w.tick, delay) < phase
  {
    hide Elapsed, Wraps, Slack, Clamp;
    ElapsedIs(w, delay, i, phase);
    MulOrder(0, i, Slack(w.tick, delay));
    MulOrder(1, Wraps(w, delay, i), w.count);
    MulOrder(1, Wraps(w, delay, i) * w.count, w.tick);
  }

  /** In particular the first firing is early exactly if the slot does not wrap and the delay is rounded up by
      less than was gone of the tick. */
  lemma FirstEarlyIff(w: Wheel, delay: int, phase: int)
    requires 0 < w.tick && 0 < w.count && 0 <= w.cursor < w.count && 0 <= phase < w.tick
    ensures Elapsed(w, delay, 1, phase) < Clamp(w.tick, delay)
            <==> !WrapsAt(w, delay, w.cursor) && Slack(w.tick, delay) < phase
  {
    hide Elapsed, Slack, Clamp, WrapsAt;
    EarlyIff(w, delay, 1, phase);
    DivideUnique(w.cursor, w.count, 0, w.cursor);
    assert Due(w, delay, 0) == 0 && Wraps(w, delay, 0) == 0;
    assert Wraps(w, delay, 1) == if WrapsAt(w, delay, w.cursor) then 1 else 0;
  }

  /** A timer of one tick that is started between two ticks fires early, unless its slot wraps around. */
  lemma OneTickFiresEarly(w: Wheel, phase: int)
    requires 0 < w.tick && 0 < w.count && 0 <= w.cursor && w.cursor + 1 < w.count && 0 < phase < w.tick
    ensures Elapsed(w, w.tick, 1, phase) < w.tick
  {
    DivideUnique(w.tick + w.tick - 1, w.tick, 1, w.tick - 1);
    LastRound(w.tick, w.count, w.tick) by { MulOrder(2, w.count, w.tick); }
    MulOrder(2, w.count, w.tick);
    DivideUnique(w.tick, w.tick * w.count, 0, w.tick);
    DivideUnique(w.tick, w.tick, 1, 0);
    FirstEarlyIff(w, w.tick, phase);
  }

  /** A firing is early by less than a tick. Only the first scheduling is to blame: each firing comes at least a
      delay after the one before it, and the first one after the tick that preceded the start. */
  lemma EarlyByLessThanATick(w: Wheel, delay: int, i: nat, phase: int)
    requires 0 < w.tick && 0 < w.count && 0 <= phase < w.tick
    ensures i * Clamp(w.tick, delay) - w.tick < Elapsed(w, delay, i, phase)
    ensures Elapsed(w, delay, i, phase) <= i * (Ticks(w.tick, delay) + w.count) * w.tick
    ensures Clamp(w.tick, delay) <= Elapsed(w, delay, i + 1, phase) - Elapsed(w, delay, i, phase)
  {
    TicksCoverDelays(w, delay, i);
    GapBounds(w, delay, CursorAfter(w, Due(w, delay, i)));
    hide Clamp, Ticks, Gap, CursorAfter;
    var g := Gap(w.tick, w.count, CursorAfter(w, Due(w, delay, i)), delay);
    assert Due(w, delay, i + 1) == Due(w, delay, i) + g;
    Distribute(Due(w, delay, i), g, w.tick);
    MulOrder(Due(w, delay, i), i * (Ticks(w.tick, delay) + w.count), w.tick);
  }
}
