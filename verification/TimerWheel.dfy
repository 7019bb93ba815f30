/**
 The timer wheel as it lives in the heap: an array of slots, each a map from identifiers to timer objects
 whose counters are updated in place. A tick (advance the cursor, fetch, notify) is one step here.
 */
module HashedTimerWheel {
  import opened Wrappers
  import opened WheelModel

  class Timer {
    var id: Option<TimerId>  // none until it is scheduled for the first time
    var delay: int
    var index: int
    var rounds: int
    var times: int
    var expTimes: int

    constructor (delay: int, times: int)
      ensures id == None && this.delay == delay && index == 0 && rounds == 0 && this.times == times && expTimes == 0
    {
      id, this.delay, index, rounds, this.times, expTimes := None, delay, 0, 0, times, 0;
    }

    ghost function E(): Entry
      reads this
    {
      Entry(index, rounds, delay, times, expTimes)
    }

    ghost predicate Is(id: TimerId, e: Entry)
      reads this
    {
      && this.id == Some(id)
      && index == e.index && rounds == e.rounds && delay == e.delay && times == e.times && expTimes == e.expTimes
    }
  }

  datatype TimerError = NoCallback | BadInterval

  class TimerWheel {
    const tickDuration: int
    const roundDuration: int
    const wheelCount: int
    const wheel: array<map<TimerId, Timer>>
    var wheelCursor: int

    ghost var st: Wheel         // the pending timers
    ghost var timers: map<TimerId, Timer>  // their objects
    ghost var repr: set<Timer>  // every object that was ever pending

    /** The slots and the objects in them hold what the pending timers say they do. */
    ghost predicate Agrees()
      reads this, wheel, repr
    {
      && st.tick == tickDuration && st.count == wheelCount && st.cursor == wheelCursor
      && roundDuration == tickDuration * wheelCount && wheel.Length == wheelCount
      && InSlots(wheel[..], st, timers)
      && AsPending(st, timers, repr)
    }

    ghost predicate Ready()
      reads this, wheel, repr
    {
      Agrees() && Valid(st)
    }

    constructor (tick: int, count: int)
      requires 0 < tick && 0 < count
      ensures Ready() && st == Wheel(tick, count, 0, map[]) && fresh(wheel) && repr == {}
    {
      tickDuration, wheelCount, roundDuration, wheelCursor := tick, count, tick * count, 0;
      wheel := new map<TimerId, Timer>[count](_ => map[]);
      st, timers, repr := Wheel(tick, count, 0, map[]), map[], {};
    }

    /** The slot and the rounds for the delay of a timer. */
    method Place(t: Timer)
      requires 0 < tickDuration && 0 < wheelCount && roundDuration == tickDuration * wheelCount
      modifies t
      ensures t.id == old(t.id) && t.E() == Placed(tickDuration, wheelCount, wheelCursor, old(t.E()))
    {
      if t.delay < tickDuration {
        t.delay := tickDuration;
      }
      RoundPositive(tickDuration, wheelCount);
      var lastRoundDelay := t.delay % roundDuration;
      var lastTickDelay := t.delay % tickDuration;
      var relativeIndex := lastRoundDelay / tickDuration;
      if lastTickDelay != 0 {
        relativeIndex := relativeIndex + 1;
      }
      var remainingRounds := t.delay / roundDuration;
      if lastRoundDelay == 0 {
        remainingRounds := remainingRounds - 1;
      }
      var stopIndex := wheelCursor + relativeIndex;
      if stopIndex >= wheelCount {
        stopIndex := stopIndex - wheelCount;
        t.rounds := remainingRounds + 1;
      } else {
        t.rounds := remainingRounds;
      }
      t.index := stopIndex;
    }

    /** Puts a timer that is in no slot where its delay says. `newId` is the identifier a new timer gets. */
    method ScheduleTimeOut(t: Timer, newId: TimerId) returns (r: TimerId)
      requires Ready()
      requires (if t.id == None then newId else t.id.value) !in st.timers
      requires t in repr ==> t.id.Some?
      modifies this`st, this`timers, this`repr, wheel, t
      ensures Agrees() && r == (if old(t.id) == None then newId else old(t.id).value)
      ensures repr == old(repr) + {t} && t.id == Some(r)
      ensures st == old(st).(timers := old(st).timers[r := Placed(st.tick, st.count, st.cursor, old(t.E()))])
    {
      PlacedFiresAfterGap(st, t.E());
      NotPending(t, if t.id == None then newId else t.id.value);
      hide Placed, Valid, InSlots;
      Place(t);
      if t.id == None {
        t.id := Some(newId);
      }
      r := t.id.value;
      Insert(t, r);
    }

    /** Enters a placed timer into its slot. */
    method Insert(t: Timer, id: TimerId)
      requires Agrees() && t.id == Some(id) && id !in st.timers && 0 <= t.index < wheel.Length
      modifies this`st, this`timers, this`repr, wheel
      ensures Agrees() && repr == old(repr) + {t}
      ensures st == old(st).(timers := old(st).timers[id := t.E()])
    {
      hide InSlots, AsPending, Timer.Is;
      ghost var slots, e := wheel[..], t.E();
      InSlotsAdd(slots, st, timers, id, e, t);
      HoldsIs(t, id, e);
      AsPendingAdd(st, timers, repr, id, e, t);
      wheel[t.index] := wheel[t.index][id := t];
      assert wheel[..] == slots[t.index := slots[t.index][id := t]];
      repr := repr + {t};
      st := st.(timers := st.timers[id := e]);
      timers := timers[id := t];
    }

    /** An object whose identifier is not pending is none of the pending ones. */
    lemma NotPending(t: Timer, id: TimerId)
      requires Agrees() && id !in st.timers && (t.id == None || t.id == Some(id))
      ensures forall k | k in timers :: timers[k] != t
    {
      forall k | k in timers ensures timers[k] != t {
        assert timers[k].Is(k, st.timers[k]);
      }
    }

    /** `hasTask` says whether a callback was given, `id` is the fresh identifier. */
    method AfterFunc(interval: int, times: int, hasTask: bool, id: TimerId) returns (r: Result<TimerId, TimerError>)
      requires Ready() && id !in st.timers
      modifies this`st, this`timers, this`repr, wheel
      ensures Ready() && fresh(repr - old(repr))
      ensures !hasTask ==> r == Err(NoCallback) && st == old(st)
      ensures hasTask && interval <= 0 ==> r == Err(BadInterval) && st == old(st)
      ensures hasTask && 0 < interval ==> r == Ok(id) && st == Schedule(old(st), id, interval, times)
    {
      if !hasTask {
        return Err(NoCallback);
      }
      if interval <= 0 {
        return Err(BadInterval);
      }
      hide InSlots;
      var t := new Timer(interval, if times <= 0 then FOREVER else times);
      ghost var w := st;
      var tid := ScheduleTimeOut(t, id);
      assert st == Schedule(w, id, interval, times);
      return Ok(tid);
    }

    method Cancel(id: TimerId)
      requires Ready()
      modifies this`st, this`timers, wheel
      ensures Ready() && st == WheelModel.Cancel(old(st), id)
      ensures id !in st.timers && forall i | 0 <= i < wheel.Length :: wheel[i] == old(wheel[i]) - {id}
    {
      hide InSlots, AsPending, Valid;
      InSlotsRemove(wheel[..], st, timers, id);
      CancelValid(st, id);
      AsPendingRemove(st, timers, repr, id);
      DeleteEverywhere(id);
      st := WheelModel.Cancel(st, id);
      timers := timers - {id};
    }

    method DeleteEverywhere(id: TimerId)
      modifies wheel
      ensures wheel[..] == Without(old(wheel[..]), id)
    {
      for i := 0 to wheel.Length
        invariant forall j | 0 <= j < i :: wheel[j] == old(wheel[j]) - {id}
        invariant forall j | i <= j < wheel.Length :: wheel[j] == old(wheel[j])
      {
        wheel[i] := wheel[i] - {id};
      }
    }

    /** What the slots say about one of the timers under the cursor. */
    lemma UnderCursor(k: TimerId)
      requires Agrees() && 0 <= wheelCursor < wheel.Length && k in wheel[wheelCursor]
      ensures k in st.timers && st.timers[k].index == st.cursor
      ensures k in timers && wheel[wheelCursor][k] == timers[k] && timers[k] in repr
      ensures timers[k].Is(k, st.timers[k])
      ensures forall id | id in timers && id != k :: timers[id] != timers[k]
    {
      assert k in wheel[..][wheelCursor];
      var v := timers[k];
      assert v.Is(k, st.timers[k]);
      forall id | id in timers && id != k ensures timers[id] != v {
        assert timers[id].Is(id, st.timers[id]);
      }
    }

    lemma UnderCursorStep(k: TimerId, w: Wheel, seen: set<TimerId>)
      requires Agrees() && 0 <= wheelCursor < wheel.Length && k in wheel[wheelCursor]
      requires st == Fetched(w, seen) && w.cursor == wheelCursor
      ensures k in w.timers && w.timers[k].index == w.cursor
      ensures wheel[wheelCursor][k] in repr && wheel[wheelCursor][k].id == Some(k)
    {
      UnderCursor(k);
    }

    /** The timer `k` is taken out of the slot the cursor stands on. */
    method TakeOut(k: TimerId)
      requires Agrees() && 0 <= wheelCursor < wheel.Length && k in wheel[wheelCursor]
      modifies this`st, this`timers, wheel
      ensures Agrees() && st == old(st).(timers := old(st).timers - {k})
      ensures wheel[wheelCursor].Keys == old(wheel[wheelCursor]).Keys - {k}
    {
      hide InSlots, AsPending;
      ghost var slots := wheel[..];
      assert k in slots[wheelCursor];
      InSlotsRemove(slots, st, timers, k);
      OnlySlot(slots, st, timers, wheelCursor, k);
      AsPendingRemove(st, timers, repr, k);
      wheel[wheelCursor] := wheel[wheelCursor] - {k};
      assert wheel[..] == slots[wheelCursor := slots[wheelCursor] - {k}];
      st := st.(timers := st.timers - {k});
      timers := timers - {k};
    }

    /** The timer `k` of that slot has a round less. */
    method TakeRound(k: TimerId)
      requires Agrees() && 0 <= wheelCursor < wheel.Length && k in wheel[wheelCursor]
      requires k in st.timers
      modifies this`st, wheel[wheelCursor][k]
      ensures Agrees() && wheel[wheelCursor][k].id == Some(k)
      ensures var e := old(st).timers[k]; st == old(st).(timers := old(st).timers[k := e.(rounds := e.rounds - 1)])
    {
      UnderCursor(k);
      var v := wheel[wheelCursor][k];
      ghost var e := v.E().(rounds := v.rounds - 1);
      InSlotsChange(wheel[..], st, timers, k, e);
      hide InSlots, Timer.Is;
      v.rounds := v.rounds - 1;
      HoldsIs(v, k, e);
      st := st.(timers := st.timers[k := e]);
    }

    /** One turn of the fetching loop: the timer `k` of the slot is taken out if it is expired, and has a
        round less otherwise. */
    method FetchOne(k: TimerId) returns (v: Timer, expired: bool)
      requires Agrees() && 0 <= wheelCursor < wheel.Length && k in wheel[wheelCursor]
      modifies this`st, this`timers, wheel, wheel[wheelCursor][k]
      ensures Agrees() && v == old(wheel[wheelCursor][k]) && v.id == Some(k)
      ensures k in old(st).timers && old(st).timers[k].index == wheelCursor
      ensures var e := old(st).timers[k];
              && expired == (e.rounds <= 0)
              && (expired ==> v.Is(k, e) && st == old(st).(timers := old(st).timers - {k}))
              && (!expired ==> st == old(st).(timers := old(st).timers[k := e.(rounds := e.rounds - 1)]))
      ensures wheel[wheelCursor].Keys == old(wheel[wheelCursor]).Keys - if expired then {k} else {}
    {
      UnderCursor(k);
      assert wheelCursor == st.cursor;
      hide Agrees;
      v := wheel[wheelCursor][k];
      expired := v.rounds <= 0;
      if expired {
        TakeOut(k);
      } else {
        TakeRound(k);
      }
    }

    /** One turn of the fetching loop, with the tasks collected so far. */
    method FetchNext(k: TimerId, tasks: seq<Timer>, ghost ids: seq<TimerId>, ghost w: Wheel, ghost seen: set<TimerId>)
      returns (tasks': seq<Timer>, ghost ids': seq<TimerId>)
      requires Agrees() && 0 <= wheelCursor < wheel.Length && k in wheel[wheelCursor] && k !in seen
      requires st == Fetched(w, seen) && w.cursor == wheelCursor
      requires Collected(tasks, ids, w, seen) && forall t | t in tasks :: t in repr
      modifies this`st, this`timers, wheel, repr
      ensures Agrees() && st == Fetched(w, seen + {k})
      ensures Collected(tasks', ids', w, seen + {k}) && forall t | t in tasks' :: t in repr
      ensures forall id | id in old(wheel[wheelCursor]) && id != k :: id in wheel[wheelCursor]
    {
      hide Fetched, Agrees, Collected, Timer.Is, InSlots, AsPending;
      UnderCursorStep(k, w, seen);
      FetchedStep(w, seen, k);
      NotCollected(tasks, ids, w, seen, k, wheel[wheelCursor][k]);
      var v, expired := FetchOne(k);
      CollectedStep(tasks, ids, w, seen, k, v);
      if expired {
        return tasks + [v], ids + [k];
      }
      return tasks, ids;
    }

    /** Takes the expired timers out of the slot the cursor stands on, in any order. The ghost result names
        them. */
    method FetchExpired() returns (tasks: seq<Timer>, ghost ids: seq<TimerId>)
      requires Ready()
      modifies this`st, this`timers, wheel, repr
      ensures Agrees() && st == Fetched(old(st), old(st).timers.Keys)
      ensures Collected(tasks, ids, old(st), old(st).timers.Keys) && forall t | t in tasks :: t in repr
    {
      ghost var w := st;
      var keys := wheel[wheelCursor].Keys;
      ghost var seen: set<TimerId> := {};
      assert forall id | id in w.timers && w.timers[id].index == w.cursor :: id in keys;
      FetchedNothing(w);
      hide Fetched, Valid, ExpiredHere, Agrees, Collected;
      tasks, ids := [], [];
      CollectedNothing(w);
      while keys != {}
        invariant Agrees() && st == Fetched(w, seen)
        invariant forall k | k in keys :: k in wheel[wheelCursor] && k !in seen
        invariant forall id | id in w.timers && w.timers[id].index == w.cursor :: id in keys || id in seen
        invariant Collected(tasks, ids, w, seen) && forall t | t in tasks :: t in repr
        decreases keys
      {
        var k :| k in keys;
        tasks, ids := FetchNext(k, tasks, ids, w, seen);
        keys := keys - {k};
        seen := seen + {k};
      }
      FetchedSlot(w, seen);
      CollectedSlot(tasks, ids, w, seen);
    }

    /** One turn of the notifying loop: the firing is counted, and the timer is scheduled again from the new
        cursor if it has firings left. */
    method NotifyOne(t: Timer, ghost id: TimerId, ghost e: Entry)
      requires Ready() && t.Is(id, e) && id !in st.timers && t in repr
      modifies this`st, this`timers, this`repr, wheel, t
      ensures Agrees() && repr == old(repr)
      ensures st == if FiresAgain(e)
                    then old(st).(timers := old(st).timers[id := Restarted(st, e)])
                    else old(st)
    {
      t.expTimes := t.expTimes + 1;
      if t.expTimes < t.times {
        var _ := ScheduleTimeOut(t, t.id.value);
      }
    }

    /** `w` is the wheel before the expired timers were fetched from it. The result lists what fired. */
    method NotifyExpired(tasks: seq<Timer>, ghost ids: seq<TimerId>, ghost w: Wheel, ghost expired: set<TimerId>)
      returns (fired: seq<TimerId>)
      requires Agrees() && Valid(w) && st == Fetched(w, w.timers.Keys)
      requires Collected(tasks, ids, w, w.timers.Keys) && forall t | t in tasks :: t in repr
      requires (forall id | id in ids :: id in expired) && (forall id | id in expired :: id in ids)
      modifies this`st, this`timers, this`repr, wheel, repr
      ensures Agrees() && Valid(st) && st == Notified(w, Fetched(w, w.timers.Keys), expired)
      ensures fired == ids && repr == old(repr)
    {
      ghost var f := st;
      hide Agrees, Notified, Valid, Fetched, Placed, Collected, Timer.Is, FiresAgain, InSlots, AsPending, Firsts;
      FetchedValid(w);
      NotifiedNothing(w, f);
      Pending(tasks, ids, w);
      FirstsOf(ids, 0);
      fired := [];
      for k := 0 to |tasks|
        invariant Agrees() && Valid(st) && st == Notified(w, f, Firsts(ids, k))
        invariant fired == ids[..k] && repr == old(repr)
        invariant forall j | k <= j < |tasks| :: tasks[j].Is(ids[j], w.timers[ids[j]])
      {
        var t := tasks[k];
        FirstsOf(ids, k);
        NotifiedStep(w, f, Firsts(ids, k), ids[k]);
        IsNamed(t, ids[k], w.timers[ids[k]]);
        fired := fired + [t.id.value];
        NotifyOne(t, ids[k], w.timers[ids[k]]);
      }
      AllFirsts(ids, expired);
    }

    /** A tick: what fired is exactly what was expired, each timer once. */
    method Tick() returns (fired: seq<TimerId>)
      requires Ready()
      modifies this, wheel, repr
      ensures Ready() && st == WheelModel.Tick(old(st)) && repr == old(repr)
      ensures forall i, j | 0 <= i < j < |fired| :: fired[i] != fired[j]
      ensures forall id | id in old(st).timers :: id in fired <==> id in Expired(old(st))
      ensures forall id | id in fired :: id in old(st).timers
    {
      hide Agrees, Notified, Fetched, Collected, Valid, Expired, WheelModel.Tick;
      ghost var w := st;
      TickValid(w);
      TwoLoopsMakeATick(w);
      AdvanceCursor();
      ghost var v := st;
      var tasks, ids := FetchExpired();
      CollectedAll(tasks, ids, w);
      fired := NotifyExpired(tasks, ids, v, Expired(w));
    }

    method AdvanceCursor()
      requires Ready()
      modifies this`wheelCursor, this`st
      ensures Ready() && st == old(st).(cursor := Advance(old(st)))
    {
      hide InSlots, AsPending;
      Advanced(wheel[..], st, timers, repr);
      st := st.(cursor := Advance(st));
      wheelCursor := wheelCursor + 1;
      if wheelCursor == wheelCount {
        wheelCursor := 0;
      }
    }
  }

  // ---- Slots ---------------------------------------------------------------------------------------

  /** Each timer sits in the slot its own index names, under its own identifier, and nowhere else. */
  ghost predicate InSlots(slots: seq<map<TimerId, Timer>>, w: Wheel, timers: map<TimerId, Timer>) {
    && timers.Keys == w.timers.Keys
    && (forall id | id in w.timers :: 0 <= w.timers[id].index < |slots| && id in slots[w.timers[id].index])
    && (forall i, id | 0 <= i < |slots| && id in slots[i] ::
          id in w.timers && w.timers[id].index == i && slots[i][id] == timers[id])
  }

  /** Each object holds what the pending timers say about it. */
  ghost predicate AsPending(w: Wheel, timers: map<TimerId, Timer>, repr: set<Timer>)
    reads repr
  {
    forall id | id in timers :: timers[id] in repr && id in w.timers && timers[id].Is(id, w.timers[id])
  }

  lemma HoldsIs(t: Timer, id: TimerId, e: Entry)
    requires t.id == Some(id) && t.E() == e
    ensures t.Is(id, e)
  {
  }

  lemma AsPendingAdd(w: Wheel, timers: map<TimerId, Timer>, repr: set<Timer>, id: TimerId, e: Entry, t: Timer)
    requires AsPending(w, timers, repr) && t.Is(id, e)
    ensures AsPending(w.(timers := w.timers[id := e]), timers[id := t], repr + {t})
  {
    hide Timer.Is;
  }

  lemma AsPendingRemove(w: Wheel, timers: map<TimerId, Timer>, repr: set<Timer>, id: TimerId)
    requires AsPending(w, timers, repr)
    ensures AsPending(w.(timers := w.timers - {id}), timers - {id}, repr)
  {
    hide Timer.Is;
  }

  lemma InSlotsAdd(slots: seq<map<TimerId, Timer>>, w: Wheel, timers: map<TimerId, Timer>, id: TimerId, e: Entry,
                   t: Timer)
    requires InSlots(slots, w, timers) && id !in w.timers && 0 <= e.index < |slots|
    ensures InSlots(slots[e.index := slots[e.index][id := t]], w.(timers := w.timers[id := e]), timers[id := t])
  {
  }

  function Without(slots: seq<map<TimerId, Timer>>, id: TimerId): (r: seq<map<TimerId, Timer>>)
    ensures |r| == |slots| && forall i | 0 <= i < |slots| :: r[i] == slots[i] - {id}
  {
    seq(|slots|, i requires 0 <= i < |slots| => slots[i] - {id})
  }

  lemma InSlotsRemove(slots: seq<map<TimerId, Timer>>, w: Wheel, timers: map<TimerId, Timer>, id: TimerId)
    requires InSlots(slots, w, timers)
    ensures InSlots(Without(slots, id), w.(timers := w.timers - {id}), timers - {id})
  {
  }

  lemma OnlySlot(slots: seq<map<TimerId, Timer>>, w: Wheel, timers: map<TimerId, Timer>, c: int, id: TimerId)
    requires InSlots(slots, w, timers) && 0 <= c < |slots| && id in slots[c]
    ensures Without(slots, id) == slots[c := slots[c] - {id}]
  {
    forall i | 0 <= i < |slots| ensures Without(slots, id)[i] == slots[c := slots[c] - {id}][i] {
      if i != c {
        assert id !in slots[i];
        assert slots[i] - {id} == slots[i];
      }
    }
  }

  lemma InSlotsChange(slots: seq<map<TimerId, Timer>>, w: Wheel, timers: map<TimerId, Timer>, id: TimerId, e: Entry)
    requires InSlots(slots, w, timers) && id in w.timers && e.index == w.timers[id].index
    ensures InSlots(slots, w.(timers := w.timers[id := e]), timers)
  {
  }

  lemma Advanced(slots: seq<map<TimerId, Timer>>, w: Wheel, timers: map<TimerId, Timer>, repr: set<Timer>)
    requires InSlots(slots, w, timers) && AsPending(w, timers, repr)
    ensures var v := w.(cursor := Advance(w)); InSlots(slots, v, timers) && AsPending(v, timers, repr)
  {
    hide Timer.Is;
  }

  lemma CancelValid(w: Wheel, id: TimerId)
    requires Valid(w)
    ensures Valid(WheelModel.Cancel(w, id))
  {
  }

  // ---- Collected tasks -----------------------------------------------------------------------------

  ghost function Firsts(ids: seq<TimerId>, k: nat): set<TimerId>
    requires k <= |ids|
  {
    set i | 0 <= i < k :: ids[i]
  }

  lemma FirstsOf(ids: seq<TimerId>, k: nat)
    requires k <= |ids|
    ensures k == 0 ==> Firsts(ids, k) == {}
    ensures k < |ids| ==> Firsts(ids, k + 1) == Firsts(ids, k) + {ids[k]}
    ensures k < |ids| && (forall i, j | 0 <= i < j < |ids| :: ids[i] != ids[j]) ==> ids[k] !in Firsts(ids, k)
  {
  }

  lemma AllFirsts(ids: seq<TimerId>, all: set<TimerId>)
    requires (forall id | id in ids :: id in all) && (forall id | id in all :: id in ids)
    ensures Firsts(ids, |ids|) == all
  {
    forall id | id in all ensures id in Firsts(ids, |ids|) {
      var i :| 0 <= i < |ids| && ids[i] == id;
    }
  }

  lemma IsNamed(t: Timer, id: TimerId, e: Entry)
    requires t.Is(id, e)
    ensures t.id == Some(id)
  {
  }

  /** `tasks` are the expired timers among those seen, in the order of `ids`, as they were. */
  ghost predicate Collected(tasks: seq<Timer>, ids: seq<TimerId>, w: Wheel, seen: set<TimerId>)
    reads tasks
  {
    && |ids| == |tasks| && (forall i, j | 0 <= i < j < |ids| :: ids[i] != ids[j])
    && (forall i | 0 <= i < |ids| :: ids[i] in seen && ids[i] in w.timers && tasks[i].Is(ids[i], w.timers[ids[i]]))
    && (forall id | id in ids :: ExpiredHere(w, w.timers[id]))
    && (forall id | id in seen && id in w.timers && ExpiredHere(w, w.timers[id]) :: id in ids)
  }

  lemma CollectedNothing(w: Wheel)
    ensures Collected([], [], w, {})
  {
  }

  lemma Pending(tasks: seq<Timer>, ids: seq<TimerId>, w: Wheel)
    requires Collected(tasks, ids, w, w.timers.Keys)
    ensures |ids| == |tasks| && forall i, j | 0 <= i < j < |ids| :: ids[i] != ids[j] && tasks[i] != tasks[j]
    ensures forall i | 0 <= i < |ids| :: ids[i] in w.timers && ids[i] !in Fetched(w, w.timers.Keys).timers
    ensures forall i | 0 <= i < |ids| :: tasks[i].Is(ids[i], w.timers[ids[i]])
  {
  }

  lemma CollectedAll(tasks: seq<Timer>, ids: seq<TimerId>, w: Wheel)
    requires Valid(w) && var v := w.(cursor := Advance(w)); Collected(tasks, ids, v, v.timers.Keys)
    ensures (forall id | id in ids :: id in w.timers && id in Expired(w)) && (forall id | id in Expired(w) :: id in ids)
    ensures forall i, j | 0 <= i < j < |ids| :: ids[i] != ids[j]
  {
  }

  lemma NotCollected(tasks: seq<Timer>, ids: seq<TimerId>, w: Wheel, seen: set<TimerId>, id: TimerId, v: Timer)
    requires Collected(tasks, ids, w, seen) && id !in seen && v.id == Some(id)
    ensures v !in tasks
  {
  }

  lemma CollectedStep(tasks: seq<Timer>, ids: seq<TimerId>, w: Wheel, seen: set<TimerId>, id: TimerId, v: Timer)
    requires Collected(tasks, ids, w, seen) && id !in seen && id in w.timers && w.timers[id].index == w.cursor
    ensures 0 < w.timers[id].rounds ==> Collected(tasks, ids, w, seen + {id})
    ensures w.timers[id].rounds <= 0 && v.Is(id, w.timers[id]) ==> Collected(tasks + [v], ids + [id], w, seen + {id})
  {
  }

  lemma CollectedSlot(tasks: seq<Timer>, ids: seq<TimerId>, w: Wheel, seen: set<TimerId>)
    requires Collected(tasks, ids, w, seen)
    requires forall id | id in w.timers && w.timers[id].index == w.cursor :: id in seen
    ensures Collected(tasks, ids, w, w.timers.Keys)
  {
  }
}
