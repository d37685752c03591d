/** zfut_flooder() on the agent: send the same datagram for a given time and count what was sent and
    what was refused. */
module UdpFlooder {
  import opened Basics
  import opened Iovecs

  /** A UDP zocket and the clock, in milliseconds. */
  class Channel {
    ghost var sends: seq<int>         // what the sends returned
    ghost var readings: seq<nat>      // what the clock said
    ghost var eventsFailed: bool
    ghost var clockFailed: bool
    var clock: nat

    method ProcessEvents() returns (rc: int)
      modifies this`eventsFailed
      ensures eventsFailed == (old(eventsFailed) || rc < 0)
    {
      rc := *;
      eventsFailed := eventsFailed || rc < 0;
    }

    /** zfut_send() of the vectors, or zfut_send_single() of the buffer they make up. */
    method Send(dgramSize: nat) returns (rc: int)
      modifies this`sends
      ensures sends == old(sends) + [rc]
    {
      rc := *;
      sends := sends + [rc];
    }

    /** gettimeofday(); between two readings the clock moves on. */
    method Now() returns (rc: int, now: nat)
      modifies this`clock, this`readings, this`clockFailed
      ensures clock > old(clock) && now == clock && readings == old(readings) + [now]
      ensures clockFailed == (old(clockFailed) || rc != 0)
    {
      var step: nat :| step > 0;
      clock := clock + step;
      rc, now := *, clock;
      readings := readings + [now];
      clockFailed := clockFailed || rc != 0;
    }
  }

  /** Neither accepted as a whole nor refused for now. */
  predicate Strange(rc: int, dgramSize: nat) { rc != -EAGAIN && rc != dgramSize }

  ghost predicate NoneStrange(sends: seq<int>, dgramSize: nat) {
    forall k :: 0 <= k < |sends| ==> sends[k] == -EAGAIN || sends[k] == dgramSize
  }

  lemma OneMoreSend(sends: seq<int>, rc: int, dgramSize: nat)
    ensures multiset(sends + [rc]) == multiset(sends) + multiset{rc}
    ensures NoneStrange(sends + [rc], dgramSize) <==> NoneStrange(sends, dgramSize) && !Strange(rc, dgramSize)
  {
    var more := sends + [rc];
    assert more[|sends|] == rc && forall k :: 0 <= k < |sends| ==> more[k] == sends[k];
  }

  /** Without strange ones, the accepted and the refused sends are all. */
  lemma {:induction false} EverySendCounts(sends: seq<int>, dgramSize: nat)
    requires NoneStrange(sends, dgramSize)
    ensures multiset(sends)[-EAGAIN] + multiset(sends)[dgramSize as int] == |sends|
  {
    if sends != [] {
      var n := |sends| - 1;
      assert sends == sends[..n] + [sends[n]];
      OneMoreSend(sends[..n], sends[n], dgramSize);
      EverySendCounts(sends[..n], dgramSize);
    }
  }

  /** The counters of a flood in which the sends returned this. */
  ghost predicate Counts(stats: nat, errors: nat, sends: seq<int>, dgramSize: nat) {
    && stats == dgramSize * multiset(sends)[dgramSize as int]
    && errors == multiset(sends)[-EAGAIN]
  }

  lemma CountsMore(stats: nat, errors: nat, sends: seq<int>, rc: int, dgramSize: nat)
    requires Counts(stats, errors, sends, dgramSize)
    ensures Counts(stats + if rc == dgramSize then dgramSize else 0, errors + if rc == -EAGAIN then 1 else 0,
                   sends + [rc], dgramSize)
    ensures NoneStrange(sends + [rc], dgramSize) <==> NoneStrange(sends, dgramSize) && !Strange(rc, dgramSize)
  {
    var n := multiset(sends)[dgramSize as int];
    OneMoreSend(sends, rc, dgramSize);
    OneMore(n, dgramSize);
    assert dgramSize * (n + 1) == (n + 1) * dgramSize && dgramSize * n == n * dgramSize;
  }

  /** One turn: process events, send, process events. */
  method FloodOnce(ch: Channel, dgramSize: nat, stats: nat, errors: nat)
    returns (rc: int, stats': nat, errors': nat)
    requires Counts(stats, errors, ch.sends, dgramSize) && NoneStrange(ch.sends, dgramSize) && !ch.eventsFailed
    modifies ch`sends, ch`eventsFailed
    ensures rc == if NoneStrange(ch.sends, dgramSize) && !ch.eventsFailed then 0 else -1
    ensures Counts(stats', errors', ch.sends, dgramSize)
    ensures rc == 0 ==> |ch.sends| == |old(ch.sends)| + 1
  {
    stats', errors' := stats, errors;
    rc := ch.ProcessEvents();
    if rc < 0 {
      return -1, stats', errors';
    }
    rc := ch.Send(dgramSize);
    CountsMore(stats, errors, old(ch.sends), rc, dgramSize);
    if rc == -EAGAIN {
      errors' := errors' + 1;
    } else if rc != dgramSize {
      return -1, stats', errors';
    } else {
      stats' := stats' + rc;
    }
    rc := ch.ProcessEvents();
    return if rc < 0 then -1 else 0, stats', errors';
  }

  lemma Datagrams(stats: nat, dgramSize: nat, n: nat)
    requires stats == dgramSize * n
    ensures dgramSize > 0 ==> stats % dgramSize == 0 && stats / dgramSize == n
  {
    if dgramSize > 0 {
      var q: nat := stats / dgramSize;
      var more: nat := q + 1;
      assert stats == q * dgramSize + stats % dgramSize;
      OneMore(n, dgramSize);
      OneMore(q, dgramSize);
      if n < q {
        Scaled(n + 1, q, dgramSize);
      } else if q < n {
        Scaled(more, n, dgramSize);
      }
    }
  }

  /** The flood: stats is what the accepted sends took together, errors the number refused, whether it
      fails or not. It succeeds exactly when every call did, and ends at the first reading of the clock after
      the given time; the two counters then account for every turn of the loop. */
  method Flood(ch: Channel, dgramSize: nat, iovcnt: nat, duration: int)
    returns (rc: int, stats: nat, errors: nat, turns: nat, iov: array<Iov>)
    requires ch.sends == [] && ch.readings == [] && !ch.eventsFailed && !ch.clockFailed
    modifies ch
    ensures stats == dgramSize * multiset(ch.sends)[dgramSize as int] && errors == multiset(ch.sends)[-EAGAIN]
    ensures rc == 0 <==> && dgramSize >= iovcnt && !ch.eventsFailed && !ch.clockFailed
                         && forall k :: 0 <= k < |ch.sends| ==> ch.sends[k] == -EAGAIN || ch.sends[k] == dgramSize
    ensures rc == 0 ==> |ch.readings| == turns + 1 && ch.readings[turns] - ch.readings[0] > duration
    ensures forall k :: 0 < k < |ch.readings| - 1 ==> ch.readings[k] - ch.readings[0] <= duration
    ensures rc == 0 ==> 1 <= turns == |ch.sends| == errors + multiset(ch.sends)[dgramSize as int]
    ensures rc == 0 && dgramSize > 0 ==> stats % dgramSize == 0 && turns == errors + stats / dgramSize
    ensures rc == 0 || rc == -1
    ensures rc == 0 ==> iov.Length == iovcnt && (iovcnt > 0 ==> Partition(iov[..], dgramSize))
  {
    stats, errors, turns := 0, 0, 0;
    iov := new Iov[iovcnt](_ => Iov(NO_BASE, 0));
    var start, now;
    rc, start := ch.Now();
    if rc != 0 {
      return -1, stats, errors, turns, iov;
    }
    rc := FlooderSplit(dgramSize, iov);
    if rc != 0 {
      return;
    }
    while true
      invariant Counts(stats, errors, ch.sends, dgramSize) && NoneStrange(ch.sends, dgramSize)
      invariant !ch.eventsFailed && !ch.clockFailed
      invariant turns == |ch.sends| && |ch.readings| == turns + 1
      invariant ch.readings[0] == start <= ch.clock
      invariant forall k :: 0 < k < |ch.readings| ==> ch.readings[k] - start <= duration
      invariant iovcnt > 0 ==> Partition(iov[..], dgramSize)
      decreases start + duration - ch.clock
    {
      rc, stats, errors := FloodOnce(ch, dgramSize, stats, errors);
      if rc < 0 {
        return;
      }
      rc, now := ch.Now();
      if rc != 0 {
        return -1, stats, errors, turns, iov;
      }
      turns := turns + 1;
      if now - start > duration {
        EverySendCounts(ch.sends, dgramSize);
        Datagrams(stats, dgramSize, multiset(ch.sends)[dgramSize as int]);
        return;
      }
    }
  }
}
