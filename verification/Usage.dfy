/** The objects in use: several calls one after another, with what the specifications promise about them. */
module Usage {
  import opened Wrappers
  import DM = DequeModel
  import WC = WeakConsistency
  import LD = LinkedDeque
  import WM = WheelModel
  import HW = HashedTimerWheel

  // ---- The deque and an iterator -------------------------------------------------------------------

  method PutTwoTakeTwo(x: DM.Item, y: DM.Item) returns (a: Option<DM.Item>, b: Option<DM.Item>)
    ensures a == Some(x) && b == Some(y)
  {
    hide DM.Inv, LD.Deque.Agrees, DM.Items, DM.PushLast, DM.PopFirst;
    var q := new LD.Deque(3);
    var ok := q.OfferLast(Some(x));
    ok := q.OfferLast(Some(y));
    a := q.PollFirst();
    b := q.PollFirst();
  }

  /** The element an iterator stands before is taken and another one added: the iterator still hands out
      the element that it promised, and goes on behind it. */
  method IterateWhileOthersChange(q: LD.Deque, it: LD.DequeIterator, z: DM.Item)
    returns (a: Option<DM.Item>, b: Option<DM.Item>)
    requires q.Valid() && it.q == q && it.Valid() && it.next != null
    modifies q, q.st.cells.Keys, it
    ensures q.Valid() && it.Valid()
    ensures a.Some? && a == old(it.nextItem)
  {
    hide DM.Inv, LD.Deque.Agrees, DM.PopFirst, DM.PushLast, WC.Evolved;
    ghost var w := WC.World(q.st, it.It());
    var taken := q.PollFirst();
    if w.s.order != [] {
      WC.StepGood(w, WC.TakeFirst);
    }
    w := WC.World(q.st, it.It());
    q.EndsInHeap();
    var ok := q.OfferLast(Some(z));
    if ok {
      WC.StepGood(w, WC.PutLast(q.last, z));
    }
    a := it.Next();
    b := it.Next();
  }

  // ---- The timer wheel -----------------------------------------------------------------------------

  function Ticks(n: nat): (evs: seq<WM.Event>)
    ensures |evs| == n && forall k | 0 <= k < n :: evs[k].TickEvent?
  {
    seq(n, _ => WM.TickEvent)
  }

  lemma {:induction false} TicksCount(n: nat, k: nat)
    requires k <= n
    ensures WM.TickCount(Ticks(n), k) == k
  {
    if 0 < k { TicksCount(n, k - 1); }
  }

  lemma NextTick(w: WM.Wheel, n: nat, k: nat)
    requires WM.Valid(w) && k < n
    ensures WM.After(w, Ticks(n), k + 1) == WM.Tick(WM.After(w, Ticks(n), k))
  {
  }

  /** A wheel is made, one timer started, and the wheel turned: the timer fires on its due ticks. */
  method StartAndTurn(tick: int, count: int, id: WM.TimerId, interval: int, times: int, n: nat)
    returns (fires: seq<bool>)
    requires 0 < tick && 0 < count && 0 < interval
    ensures |fires| == n
    ensures forall k | 0 <= k < n :: fires[k] <==>
              exists i: nat ::
                && 1 <= i <= (if 0 < times then times else 0x0FFF_FFFF)
                && k + 1 == WM.Due(WM.Wheel(tick, count, 0, map[]), interval, i)
  {
    hide WM.Due, WM.Tick, WM.Expired, WM.After, WM.Firings, HW.InSlots, HW.AsPending;
    var wheel := new HW.TimerWheel(tick, count);
    ghost var w := wheel.st;
    var started := wheel.AfterFunc(interval, times, true, id);
    ghost var w1 := WM.Schedule(w, id, interval, times);
    ghost var evs := Ticks(n);
    FirstTick(w1, n, id, evs);
    ghost var asked := if 0 < times then times else 0x0FFF_FFFF;
    fires := [];
    for k := 0 to n
      invariant wheel.Ready() && fresh(wheel.repr) && wheel.st == WM.After(w1, evs, k)
      invariant |fires| == k
      invariant forall j | 0 <= j < k :: fires[j] <==>
                  exists i: nat :: 1 <= i <= asked && j + 1 == WM.Due(w, interval, i)
    {
      WM.TickValid(wheel.st);
      var fired := wheel.Tick();
      NextTick(w1, n, k);
      TicksCount(n, k + 1);
      WM.FiresExactlyWhenDue(w, id, interval, times, evs, k);
      fires := fires + [id in fired];
    }
  }

  lemma FirstTick(w: WM.Wheel, n: nat, id: WM.TimerId, evs: seq<WM.Event>)
    requires WM.Valid(w) && evs == Ticks(n)
    ensures WM.After(w, evs, 0) == w && WM.LeftAlone(id, evs)
  {
  }
}
