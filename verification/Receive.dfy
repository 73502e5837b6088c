/**
  The measured receive loops of the target wrappers: monocoque's nested batch
  drain, the two plain loops of rust-zmq, and libzmq's, which aborts when the
  connection closes during warmup.
*/
module Receive {
  import opened Numbers
  import opened Wrappers

  /**
    A connection that delivers `available` messages and then closes. A
    non-blocking receive may come back empty-handed although messages are left;
    `misses` says which ones do.
  */
  class PullSocket {
    const available: nat
    const misses: nat -> bool
    var delivered: nat
    var polls: nat

    constructor (available: nat, misses: nat -> bool)
      ensures this.available == available && this.misses == misses && delivered == 0 && polls == 0
    {
      this.available, this.misses := available, misses;
      delivered, polls := 0, 0;
    }

    /** The blocking receive: fails only once the connection is exhausted and closed. */
    method RecvInto() returns (got: bool)
      modifies this`delivered
      ensures got <==> old(delivered) < available
      ensures delivered == old(delivered) + if got then 1 else 0
    {
      got := delivered < available;
      if got {
        delivered := delivered + 1;
      }
    }

    /** The non-blocking receive. */
    method TryRecvInto() returns (got: bool)
      modifies this
      ensures got <==> old(delivered) < available && !misses(old(polls))
      ensures delivered == old(delivered) + if got then 1 else 0
      ensures polls == old(polls) + 1
    {
      got := delivered < available && !misses(polls);
      polls := polls + 1;
      if got {
        delivered := delivered + 1;
      }
    }
  }

  /** The messages counted after the warmup prefix. */
  function Reported(available: nat, warmup: nat, messages: nat): nat {
    var consumed := MinNat(available, warmup + messages);
    if consumed <= warmup then 0 else consumed - warmup
  }

  /** How many messages monocoque had received when it started its clock, if it started it. */
  function DrainClock(available: nat, warmup: nat, messages: nat): Option<nat> {
    var first := MaxNat(1, warmup);
    if first <= MinNat(available, warmup + messages) then Some(first) else None
  }

  /**
    monocoque: receive one message, then drain whatever is ready without
    blocking. `t0` is the number of messages received when the clock started.
  */
  method RecvMeasured(pull: PullSocket, warmup: nat, messages: nat) returns (measured: nat, t0: Option<nat>)
    requires pull.delivered == 0
    modifies pull
    ensures pull.delivered == MinNat(pull.available, warmup + messages)
    ensures measured == Reported(pull.available, warmup, messages)
    ensures measured == if pull.delivered > warmup then pull.delivered - warmup else 0
    ensures t0 == DrainClock(pull.available, warmup, messages)
    ensures t0.Some? <==> pull.delivered >= warmup && pull.delivered >= 1
    ensures t0.Some? ==> t0.value == if warmup == 0 then 1 else warmup
  {
    var total := warmup + messages;
    var count := 0;
    t0 := None;
    while count < total
      invariant count == pull.delivered <= MinNat(pull.available, total)
      invariant t0 == if count >= MaxNat(1, warmup) then Some(MaxNat(1, warmup)) else None
      decreases total - count
    {
      var got := pull.RecvInto();
      if !got {
        break;
      }
      count := count + 1;
      if t0.None? && count >= warmup {
        t0 := Some(count);
      }
      while count < total
        invariant 0 < count == pull.delivered <= MinNat(pull.available, total)
        invariant t0 == if count >= MaxNat(1, warmup) then Some(MaxNat(1, warmup)) else None
        decreases total - count
      {
        var ready := pull.TryRecvInto();
        if !ready {
          break;
        }
        count := count + 1;
        if t0.None? && count >= warmup {
          t0 := Some(count);
        }
      }
    }
    measured := if count <= warmup then 0 else count - warmup;
  }

  /** rust-zmq: one loop for the warmup prefix, the clock, and one loop for the measured block. */
  method PullTwoLoops(sock: PullSocket, warmup: nat, messages: nat) returns (measured: nat, t0: nat)
    requires sock.delivered == 0
    modifies sock
    ensures sock.delivered == MinNat(sock.available, warmup + messages)
    ensures measured == Reported(sock.available, warmup, messages)
    ensures measured == if sock.delivered > warmup then sock.delivered - warmup else 0
    ensures t0 == MinNat(sock.available, warmup)
  {
    var total := warmup + messages;
    var count := 0;
    while count < warmup
      invariant count == sock.delivered <= MinNat(sock.available, warmup)
    {
      var got := sock.RecvInto();
      if !got {
        break;
      }
      count := count + 1;
    }
    t0 := count;
    measured := 0;
    while count < total
      invariant count == sock.delivered <= MinNat(sock.available, total)
      invariant count == t0 + measured
    {
      var got := sock.RecvInto();
      if !got {
        break;
      }
      count := count + 1;
      measured := measured + 1;
    }
  }

  /** What libzmq prints; `None` where it aborts without printing. */
  function LibzmqReport(available: nat, warmup: nat, messages: nat): Option<nat> {
    if available < warmup then None else Some(MinNat(available - warmup, messages))
  }

  /** libzmq: a failed receive during warmup is fatal, one during the block ends it. */
  method PullLibzmq(sock: PullSocket, warmup: nat, messages: nat) returns (printed: Option<nat>)
    requires sock.delivered == 0
    modifies sock
    ensures printed == LibzmqReport(sock.available, warmup, messages)
    ensures printed == if sock.available < warmup then None else Some(sock.delivered - warmup)
    ensures sock.delivered == MinNat(sock.available, warmup + messages)
  {
    for n := 0 to warmup
      invariant sock.delivered == n <= sock.available
    {
      var got := sock.RecvInto();
      if !got {
        return None;
      }
    }
    var count := 0;
    while count < messages
      invariant count <= messages && sock.delivered == warmup + count <= sock.available
    {
      var got := sock.RecvInto();
      if !got {
        break;
      }
      count := count + 1;
    }
    printed := Some(count);
  }

  /** Batch draining is invisible in the count: run on equal connections, both loops consume and report the same. */
  method DrainRefinesTwoLoops(available: nat, misses: nat -> bool, misses': nat -> bool, warmup: nat, messages: nat)
    returns (drained: nat, plain: nat)
    ensures drained == plain == Reported(available, warmup, messages)
  {
    var a := new PullSocket(available, misses);
    var b := new PullSocket(available, misses');
    var clockA, clockB;
    drained, clockA := RecvMeasured(a, warmup, messages);
    plain, clockB := PullTwoLoops(b, warmup, messages);
    assert a.delivered == b.delivered;
  }

  /** libzmq prints the same count as the others exactly when the warmup prefix arrives in full. */
  lemma LibzmqAgreesIff(available: nat, warmup: nat, messages: nat)
    ensures LibzmqReport(available, warmup, messages) == Some(Reported(available, warmup, messages))
            <==> available >= warmup
  {
  }

  /** The messages that arrive after monocoque starts its clock. */
  function DrainTimed(available: nat, warmup: nat, messages: nat): nat {
    match DrainClock(available, warmup, messages)
    case Some(t0) => MinNat(available, warmup + messages) - t0
    case None => 0
  }

  /**
    monocoque's timed window holds exactly the messages it reports unless there is
    no warmup prefix, something to measure and something to receive: then the first
    message is counted but starts the clock.
  */
  lemma TimedWindowIsReportedIff(available: nat, warmup: nat, messages: nat)
    ensures DrainTimed(available, warmup, messages) == Reported(available, warmup, messages)
            <==> warmup > 0 || messages == 0 || available == 0
  {
  }

  /** So the two agree on every connection exactly when a warmup prefix or no block at all is asked for. */
  lemma TimedWindowAlwaysReportedIff(warmup: nat, messages: nat)
    ensures warmup > 0 || messages == 0 <==>
            forall available: nat :: DrainTimed(available, warmup, messages) == Reported(available, warmup, messages)
  {
    forall available: nat | warmup > 0 || messages == 0
      ensures DrainTimed(available, warmup, messages) == Reported(available, warmup, messages)
    {
      TimedWindowIsReportedIff(available, warmup, messages);
    }
    TimedWindowIsReportedIff(1, warmup, messages);
  }

  /** The two plain loops time exactly the messages they report, on every connection and for every request. */
  lemma PlainWindowIsReported(available: nat, warmup: nat, messages: nat)
    ensures MinNat(available, warmup + messages) - MinNat(available, warmup) == Reported(available, warmup, messages)
  {
  }
}
