/** A condition with an interrupt: a waiter counter, and a channel that is replaced when it is closed. */
module TimeoutCondition {
  const MAX_UINT64: nat := 0xFFFF_FFFF_FFFF_FFFF

  /** A condition's waiter counter and its signal channel. Channels are numbered in the order they are
      made; an interrupt closes the current one and makes the next, so those before `gen` are closed. */
  datatype CondState = CondState(hasWaiters: nat, gen: nat)

  class Channel {
    var closed: bool

    constructor ()
      ensures !closed
    {
      closed := false;
    }
  }

  class TimeoutCond {
    var hasWaiters: nat  // 64 bits wide
    var signal: Channel

    ghost var made: seq<Channel>  // every channel this condition ever had

    ghost predicate Valid()
      reads this, made
    {
      && hasWaiters <= MAX_UINT64
      && made != [] && signal == made[|made| - 1]
      && (forall i, j | 0 <= i < j < |made| :: made[i] != made[j])
      && (forall i | 0 <= i < |made| :: made[i].closed <==> i < |made| - 1)
    }

    ghost function Abs(): CondState
      requires Valid()
      reads this, made
    {
      CondState(hasWaiters, |made| - 1)
    }

    constructor ()
      ensures Valid() && Abs() == CondState(0, 0) && fresh(signal)
    {
      var c := new Channel();
      hasWaiters, signal := 0, c;
      made := [c];
    }

    /** False stands for the panic on the last possible waiter. */
    method AddWaiter() returns (ok: bool)
      requires Valid()
      modifies this`hasWaiters
      ensures Valid() && ok == (old(hasWaiters) < MAX_UINT64)
      ensures ok ==> Abs() == old(Abs()).(hasWaiters := old(hasWaiters) + 1)
    {
      hasWaiters := (hasWaiters + 1) % (MAX_UINT64 + 1);
      ok := hasWaiters != 0;
    }

    /** False stands for the panic when nobody is counted. The decrement is an addition that wraps around. */
    method RemoveWaiter() returns (ok: bool)
      requires Valid()
      modifies this`hasWaiters
      ensures Valid() && ok == (old(hasWaiters) > 0)
      ensures ok ==> Abs() == old(Abs()).(hasWaiters := old(hasWaiters) - 1)
    {
      hasWaiters := (hasWaiters + MAX_UINT64) % (MAX_UINT64 + 1);
      ok := hasWaiters != MAX_UINT64;
    }

    method HasWaiters() returns (b: bool)
      requires Valid()
      ensures b == (Abs().hasWaiters > 0)
    {
      return hasWaiters > 0;
    }

    /** The first half of a wait: register, and take the channel to wait on along. */
    method BeginWait() returns (ok: bool, ch: Channel)
      requires Valid()
      modifies this`hasWaiters
      ensures Valid() && ok == (old(hasWaiters) < MAX_UINT64)
      ensures ok ==> Abs() == old(Abs()).(hasWaiters := old(hasWaiters) + 1)
      ensures ch == made[Abs().gen]
    {
      ok := AddWaiter();
      ch := signal;
    }

    /** A select on the channel captured as number `n` that does not end by a signal: true if the channel
        is found closed. That is so exactly if there was an interrupt since. */
    method FindsClosed(ch: Channel, ghost n: nat) returns (interrupted: bool)
      requires Valid() && n < |made| && ch == made[n]
      ensures interrupted <==> n < Abs().gen
    {
      return ch.closed;
    }

    method Interrupt()
      requires Valid()
      modifies this`signal, this`made, signal
      ensures Valid() && Abs() == old(Abs()).(gen := old(Abs()).gen + 1)
      ensures old(made) < made && fresh(signal)
    {
      signal.closed := true;
      signal := new Channel();
      made := made + [signal];
    }
  }
}
