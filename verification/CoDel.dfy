/**
 The request queue and its drop controller, updated in place. What the surroundings decide, the clock at
 each judgement and whether a sender still listens when its packet is popped, are parameters.
 */
module CoDel {
  import opened CoDelModel

  const CAPACITY := 2048

  datatype QueuePacket = QueuePacket(id: nat, timestamp: int)

  /** The state after judging the first `k` packets, the `i`th of them at `clock(i)`. */
  function Judged(o: Option, q: Queue, ps: seq<QueuePacket>, clock: nat -> int, k: nat): (r: Queue)
    requires Sound(q) && k <= |ps|
    requires forall i: nat | i < |ps| :: clock(i) + o.interval != 0
    ensures Sound(r)
  {
    if k == 0 then q
    else Judge(o, Judged(o, q, ps, clock, k - 1), clock(k - 1), clock(k - 1) - ps[k - 1].timestamp).0
  }

  /** The verdict on the `k`th packet. */
  function VerdictAt(o: Option, q: Queue, ps: seq<QueuePacket>, clock: nat -> int, k: nat): bool
    requires Sound(q) && k < |ps|
    requires forall i: nat | i < |ps| :: clock(i) + o.interval != 0
  {
    Judge(o, Judged(o, q, ps, clock, k), clock(k), clock(k) - ps[k].timestamp).1
  }

  class CoDel {
    const option: Option
    var packets: seq<QueuePacket>
    var count: int
    var dropping: bool
    var faTime: int
    var dropNext: int

    ghost function Q(): Queue
      reads this
    {
      Queue(count, dropping, faTime, dropNext)
    }

    constructor (option: Option)
      ensures this.option == option && packets == [] && Q() == FRESH
    {
      this.option, packets := option, [];
      count, dropping, faTime, dropNext := 0, false, 0, 0;
    }

    /** The sending half of `Push`: false if the queue is full. */
    method Enqueue(p: QueuePacket) returns (ok: bool)
      modifies this`packets
      ensures ok == (|old(packets)| < 2048)
      ensures packets == if ok then old(packets) + [p] else old(packets)
    {
      ok := |packets| < CAPACITY;
      if ok {
        packets := packets + [p];
      }
    }

    method RunControlLaw(now: int)
      requires 1 <= count
      modifies this`dropNext
      ensures dropNext == ControlLaw(option, count, now)
    {
      dropNext := now + Spacing(option.interval, count);
    }

    method RunCheckFaTime(now: int, elapsed: int) returns (drop: bool)
      modifies this`faTime
      ensures (faTime, drop) == CheckFaTime(option, old(Q()), now, elapsed)
    {
      if elapsed < option.target {
        faTime := 0;
      } else if faTime == 0 {
        faTime := now + option.interval;
      } else if now >= faTime {
        return true;
      }
      return false;
    }

    method RunJudge(p: QueuePacket, now: int) returns (drop: bool)
      requires Sound(Q())
      modifies this`count, this`dropping, this`faTime, this`dropNext
      ensures (Q(), drop) == Judge(option, old(Q()), now, now - p.timestamp)
    {
      var elapsed := now - p.timestamp;
      drop := RunCheckFaTime(now, elapsed);
      if dropping {
        if !drop {
          dropping := false;
          return;
        }
        if now > dropNext {
          count := count + 1;
          RunControlLaw(dropNext);
          drop := true;
          return;
        }
      }
      if drop && (now - dropNext < option.interval || now - faTime >= option.interval) {
        dropping := true;
        if now - dropNext < option.interval {
          if count > 2 {
            count := count - 2;
          } else {
            count := 1;
          }
        } else {
          count := 1;
        }
        RunControlLaw(now);
        drop := true;
      }
    }

    /** Takes packets off the front until one is admitted. `n` is the number of packets consumed. The last of
        them is admitted if its sender listens and its verdict is to keep it; none before it was such a
        packet, and if none is then the queue is emptied. */
    method Pop(clock: nat -> int, listens: nat -> bool) returns (n: nat, admitted: bool)
      requires Sound(Q()) && forall i: nat | i < |packets| :: clock(i) + option.interval != 0
      modifies this
      ensures n <= |old(packets)| && packets == old(packets)[n..]
      ensures Q() == Judged(option, old(Q()), old(packets), clock, n)
      ensures admitted ==> 0 < n && listens(n - 1) && !VerdictAt(option, old(Q()), old(packets), clock, n - 1)
      ensures forall k: nat | k < (if admitted then n - 1 else n) ::
                !listens(k) || VerdictAt(option, old(Q()), old(packets), clock, k)
      ensures !admitted ==> packets == []
    {
      hide Judge;
      n, admitted := 0, false;
      ghost var q, ps := Q(), packets;
      while packets != []
        invariant n <= |ps| && packets == ps[n..] && Q() == Judged(option, q, ps, clock, n)
        invariant forall k: nat | k < n :: !listens(k) || VerdictAt(option, q, ps, clock, k)
        decreases |ps| - n
      {
        var p := packets[0];
        packets := packets[1..];
        var drop := RunJudge(p, clock(n));
        n := n + 1;
        if listens(n - 1) && !drop {
          admitted := true;
          return;
        }
      }
    }
  }
}
