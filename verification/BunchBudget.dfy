/** The share_events_queue test: bunches of packets over several connections, none of which may be
    given more than MAX_BYTES_PER_CONN bytes in a bunch. */
module BunchBudget {
  import opened Basics
  import opened Sums

  const MAX_BYTES_PER_CONN: nat := 4000
  const MAX_CONN_SELECT_ATTEMPTS: nat := 1000000

  /** iut_sent and tst_sent of a connection. */
  datatype Conn = Conn(iutSent: seq<Byte>, tstSent: seq<Byte>)

  function Bytes(c: Conn): nat { |c.iutSent| + |c.tstSent| }

  /** bunch_bytes_limit; the C division truncates, and both operands are positive. */
  function BunchLimit(sizeMax: nat, n: nat): nat
    requires sizeMax > 0
  {
    MAX_BYTES_PER_CONN / sizeMax * sizeMax * n
  }

  /** The selection test: there is room for a packet of len bytes on c. */
  predicate HasRoom(c: Conn, len: nat) { Bytes(c) + len <= MAX_BYTES_PER_CONN }

  /** packets[i] packets of at most sizeMax bytes each were sent on connection i. */
  ghost predicate Carries(conns: seq<Conn>, packets: seq<nat>, sizeMax: nat) {
    && |packets| == |conns|
    && forall i :: 0 <= i < |conns| ==> Bytes(conns[i]) <= packets[i] * sizeMax && Bytes(conns[i]) <= MAX_BYTES_PER_CONN
  }

  /** A connection without room for a packet has had its full share of packets already. */
  lemma FullShare(c: Conn, packets: nat, len: nat, sizeMax: nat)
    requires 0 < sizeMax && len <= sizeMax && Bytes(c) <= packets * sizeMax && !HasRoom(c, len)
    ensures packets >= MAX_BYTES_PER_CONN / sizeMax
  {
    var q := MAX_BYTES_PER_CONN / sizeMax;
    assert q * sizeMax <= MAX_BYTES_PER_CONN;
    assert (q - 1) * sizeMax == q * sizeMax - sizeMax;
    if packets <= q - 1 {
      Scaled(packets, q - 1, sizeMax);
      assert false;
    }
  }

  /** The bunch limit in packets. */
  lemma LimitInPackets(bunchSize: nat, sizeMax: nat, n: nat)
    requires sizeMax > 0 && bunchSize * sizeMax <= BunchLimit(sizeMax, n)
    ensures bunchSize <= n * (MAX_BYTES_PER_CONN / sizeMax)
  {
    var q := MAX_BYTES_PER_CONN / sizeMax;
    assert q * sizeMax * n == n * q * sizeMax;
    assert (n * q + 1) * sizeMax == n * q * sizeMax + sizeMax;
    if bunchSize > n * q {
      Scaled(n * q + 1, bunchSize, sizeMax);
      assert false;
    }
  }

  /** A bunch of at least one packet passes the check only if a packet fits on an empty connection, so
      MAX_BYTES_PER_CONN - data_len does not wrap around. */
  lemma PacketFits(bunchSize: nat, sizeMax: nat, n: nat)
    requires sizeMax > 0 && 0 < bunchSize && bunchSize * sizeMax <= BunchLimit(sizeMax, n)
    ensures sizeMax <= MAX_BYTES_PER_CONN
  {
    LimitInPackets(bunchSize, sizeMax, n);
  }

  /** Pigeonhole: as long as the bunch is not complete, some connection has room for the next packet,
      whatever its size, however the packets sent so far were spread. */
  lemma SomeoneHasRoom(conns: seq<Conn>, packets: seq<nat>, sizeMax: nat, bunchSize: nat, len: nat)
    requires sizeMax > 0 && bunchSize * sizeMax <= BunchLimit(sizeMax, |conns|)
    requires Carries(conns, packets, sizeMax) && Sum(packets) < bunchSize && len <= sizeMax
    ensures exists i :: 0 <= i < |conns| && HasRoom(conns[i], len)
  {
    if forall i :: 0 <= i < |conns| ==> !HasRoom(conns[i], len) {
      forall i | 0 <= i < |conns|
        ensures packets[i] >= MAX_BYTES_PER_CONN / sizeMax
      {
        FullShare(conns[i], packets[i], len, sizeMax);
      }
      SumAtLeast(packets, MAX_BYTES_PER_CONN / sizeMax);
      LimitInPackets(bunchSize, sizeMax, |conns|);
      assert false;
    }
  }

  lemma QuotientBounds(m: nat, d: nat)
    requires d > 0
    ensures m / d * d <= m < m / d * d + d
  {
  }

  /** The limit is exact: one packet more than it allows may find every connection full. */
  lemma LimitIsTight(n: nat, sizeMax: nat) returns (conns: seq<Conn>, packets: seq<nat>)
    requires 0 < n && 0 < sizeMax <= MAX_BYTES_PER_CONN
    ensures |conns| == n && Carries(conns, packets, sizeMax)
    ensures Sum(packets) * sizeMax == BunchLimit(sizeMax, n)
    ensures forall i :: 0 <= i < n ==> !HasRoom(conns[i], sizeMax)
  {
    var q := MAX_BYTES_PER_CONN / sizeMax;
    QuotientBounds(MAX_BYTES_PER_CONN, sizeMax);
    var share := q * sizeMax;
    var full := Conn(seq(share, _ => 0 as Byte), []);
    conns := seq(n, _ => full);
    packets := seq(n, _ => q);
    SumConst(packets, q);
    assert Bytes(full) == share;
    assert n * q * sizeMax == q * sizeMax * n;
  }

  datatype Sender = Iut | Tester | Random

  /** ChoiceFailed: no connection was found in MAX_CONN_SELECT_ATTEMPTS draws. */
  datatype End = Done | TooMuchData | ChoiceFailed | SendFailed | ReceiveFailed

  /** One send: the connection, the peer it was sent from, the data and how much of it was taken. */
  datatype Packet = Packet(i: nat, iut: bool, data: seq<Byte>, taken: nat)

  /** The connection after the packet: a zocket may take only part of the data, a Tester socket must
      take it all. */
  function After(c: Conn, p: Packet): Conn
    requires p.taken <= |p.data|
  {
    if p.iut then c.(iutSent := c.iutSent + p.data[..p.taken]) else c.(tstSent := c.tstSent + p.data)
  }

  ghost predicate Proper(p: Packet, n: nat, from: Sender) {
    && p.i < n && p.taken <= |p.data|
    && (from == Iut ==> p.iut) && (from == Tester ==> !p.iut) && (!p.iut ==> p.taken == |p.data|)
  }

  /** Packets log[lo..] are a bunch or the beginning of one. */
  ghost predicate Bunch(log: seq<Packet>, lo: nat, n: nat, sizeMin: nat, sizeMax: nat, from: Sender) {
    forall k :: lo <= k < |log| ==> Proper(log[k], n, from) && sizeMin <= |log[k].data| <= sizeMax
  }

  /** What a call on a connection gave: the result of sending len bytes, or whether receiving succeeded. */
  datatype Result = Sent(iut: bool, len: nat, rc: int) | Received(ok: bool)

  /** A result that ends the test: an error, or less than everything from a Tester socket. */
  predicate Bad(r: Result) {
    match r
    case Sent(iut, len, rc) => rc < 0 || (!iut && rc != len)
    case Received(ok) => !ok
  }

  ghost predicate AllGood(results: seq<Result>, lo: nat) {
    forall k :: lo <= k < |results| ==> !Bad(results[k])
  }

  /** The two peers of all connections. Sends take at most what they are given. */
  class Peers {
    ghost var results: seq<Result>

    method Send(iut: bool, data: seq<Byte>) returns (rc: int)
      modifies this
      ensures rc <= |data| && results == old(results) + [Sent(iut, |data|, rc)]
    {
      rc := *;
      if rc > |data| {
        rc := -1;
      }
      results := results + [Sent(iut, |data|, rc)];
    }

    method Receive() returns (ok: bool)
      modifies this
      ensures results == old(results) + [Received(ok)]
    {
      ok := *;
      results := results + [Received(ok)];
    }
  }

  class Bunches {
    var conns: array<Conn>
    ghost var log: seq<Packet>        // every send that succeeded

    constructor (n: nat)
      ensures fresh(conns) && conns.Length == n && forall i :: 0 <= i < n ==> conns[i] == Conn([], [])
      ensures log == []
    {
      conns := new Conn[n](_ => Conn([], []));
      log := [];
    }

    /** Draw connections until one has room for len bytes, at most MAX_CONN_SELECT_ATTEMPTS times. */
    method Choose(len: nat) returns (ok: bool, i: nat, ghost drawn: seq<nat>)
      requires conns.Length > 0 && len <= MAX_BYTES_PER_CONN
      ensures ok ==> i < conns.Length && HasRoom(conns[i], len)
      ensures !ok ==> |drawn| == MAX_CONN_SELECT_ATTEMPTS
      ensures forall k :: 0 <= k < |drawn| ==> drawn[k] < conns.Length && !HasRoom(conns[drawn[k]], len)
    {
      var l := 0;
      drawn := [];
      while true
        invariant 0 <= l == |drawn| < MAX_CONN_SELECT_ATTEMPTS
        invariant forall k :: 0 <= k < l ==> drawn[k] < conns.Length && !HasRoom(conns[drawn[k]], len)
        decreases MAX_CONN_SELECT_ATTEMPTS - l
      {
        i :| 0 <= i < conns.Length by { assert 0 <= 0 < conns.Length; }
        if Bytes(conns[i]) <= MAX_BYTES_PER_CONN - len {
          return true, i, drawn;
        }
        drawn := drawn + [i];
        l := l + 1;
        if l >= MAX_CONN_SELECT_ATTEMPTS {
          return false, i, drawn;
        }
      }
    }

    /** tcp_conn_send() on a connection that has room. */
    method Send(peers: Peers, i: nat, from: Sender, data: seq<Byte>) returns (ok: bool)
      requires i < conns.Length && HasRoom(conns[i], |data|)
      modifies this`log, conns, peers
      ensures |peers.results| == |old(peers.results)| + 1 && old(peers.results) < peers.results
      ensures var r := peers.results[|old(peers.results)|];
              && r.Sent? && r.len == |data| && r.rc <= |data|
              && (from == Iut ==> r.iut) && (from == Tester ==> !r.iut)
              && (ok <==> r.rc >= 0 && (r.iut || r.rc == |data|))
              && log == old(log) + (if ok then [Packet(i, r.iut, data, r.rc)] else [])
              && conns[..] == old(conns[..])[i :=
                   if !ok then old(conns[i])
                   else if r.iut then old(conns[i]).(iutSent := old(conns[i]).iutSent + data[..r.rc])
                   else old(conns[i]).(tstSent := old(conns[i]).tstSent + data)]
      ensures Bytes(conns[i]) <= old(Bytes(conns[i])) + |data|
    {
      var iut := from == Iut;
      if from == Random {
        iut := *;
      }
      var rc := peers.Send(iut, data);
      if iut {
        if rc < 0 {
          return false;
        }
        conns[i] := conns[i].(iutSent := conns[i].iutSent + data[..rc]);
      } else {
        if rc < 0 {
          return false;
        } else if rc != |data| {
          return false;
        }
        conns[i] := conns[i].(tstSent := conns[i].tstSent + data);
      }
      log := log + [Packet(i, iut, data, rc)];
      return true;
    }

    /** One packet of a bunch that is not complete: some connection has room for it. */
    method SendOne(peers: Peers, sizeMin: nat, sizeMax: nat, bunchSize: nat, from: Sender, ghost packets: seq<nat>)
      returns (end: End, ghost packets': seq<nat>)
      requires 0 < sizeMax && sizeMin <= sizeMax && conns.Length > 0
      requires bunchSize * sizeMax <= BunchLimit(sizeMax, conns.Length)
      requires Carries(conns[..], packets, sizeMax) && Sum(packets) < bunchSize
      modifies this`log, conns, peers
      ensures end in {Done, ChoiceFailed, SendFailed}
      ensures Carries(conns[..], packets', sizeMax) && Sum(packets') == Sum(packets) + if end == Done then 1 else 0
      ensures if end != Done then log == old(log) && conns[..] == old(conns[..])
              else |log| == |old(log)| + 1 && log[..|old(log)|] == old(log)
                   && var p := log[|old(log)|];
                      Proper(p, conns.Length, from) && sizeMin <= |p.data| <= sizeMax
                      && conns[..] == old(conns[..])[p.i := After(old(conns[..])[p.i], p)]
      ensures end == ChoiceFailed ==> exists i :: 0 <= i < conns.Length && HasRoom(conns[i], sizeMax)
      ensures if end == ChoiceFailed then peers.results == old(peers.results)
              else |peers.results| == |old(peers.results)| + 1 && old(peers.results) < peers.results
                   && var r := peers.results[|old(peers.results)|]; r.Sent? && (end == SendFailed <==> Bad(r))
    {
      var data: seq<Byte> :| sizeMin <= |data| <= sizeMax by {
        assert sizeMin <= |seq(sizeMin, _ => 0 as Byte)| <= sizeMax;
      }
      packets' := packets;
      SomeoneHasRoom(conns[..], packets, sizeMax, bunchSize, sizeMax);
      ghost var roomy :| 0 <= roomy < conns.Length && HasRoom(conns[..][roomy], sizeMax);
      PacketFits(bunchSize, sizeMax, conns.Length);
      ghost var was := conns[..];
      var ok, i, drawn := Choose(|data|);
      if !ok {
        assert HasRoom(conns[roomy], sizeMax);
        return ChoiceFailed, packets';
      }
      var sent := Send(peers, i, from, data);
      if !sent {
        assert conns[..] == was;
        return SendFailed, packets';
      }
      OneMorePacket(was, conns[..], packets, i, |data|, sizeMax);
      SumUpdate(packets, i, packets[i] + 1);
      return Done, packets[i := packets[i] + 1];
    }

    /** One bunch. When no connection could be chosen it was bad luck: some had room for any
        packet. */
    method SendBunch(peers: Peers, sizeMin: nat, sizeMax: nat, bunchSize: nat, from: Sender) returns (end: End)
      requires 0 < sizeMax && sizeMin <= sizeMax && conns.Length > 0
      requires bunchSize * sizeMax <= BunchLimit(sizeMax, conns.Length)
      requires forall i :: 0 <= i < conns.Length ==> conns[i] == Conn([], [])
      modifies this`log, conns, peers
      ensures end in {Done, ChoiceFailed, SendFailed}
      ensures old(log) <= log && Bunch(log, |old(log)|, conns.Length, sizeMin, sizeMax, from)
      ensures end == Done <==> |log| == |old(log)| + bunchSize
      ensures conns[..] == Replay(log, |old(log)|, conns.Length)
      ensures end == ChoiceFailed ==> exists i :: 0 <= i < conns.Length && HasRoom(conns[i], sizeMax)
      ensures forall i :: 0 <= i < conns.Length ==> Bytes(conns[i]) <= MAX_BYTES_PER_CONN
      ensures old(peers.results) <= peers.results && AllSent(peers.results, |old(peers.results)|)
      ensures end == SendFailed <==> !AllGood(peers.results, |old(peers.results)|)
      ensures |peers.results| - |old(peers.results)| == |log| - |old(log)| + if end == SendFailed then 1 else 0
    {
      ghost var packets := seq(conns.Length, _ => 0);
      SumConst(packets, 0);
      assert conns[..] == Replay(log, |log|, conns.Length);
      var k := 0;
      while k < bunchSize
        invariant 0 <= k <= bunchSize
        invariant Carries(conns[..], packets, sizeMax) && Sum(packets) == k
        invariant Sending(conns[..], old(log), log, k, sizeMin, sizeMax, from)
        invariant old(peers.results) <= peers.results && |peers.results| == |old(peers.results)| + k
        invariant AllGood(peers.results, |old(peers.results)|) && AllSent(peers.results, |old(peers.results)|)
      {
        ghost var had, before := log, peers.results;
        end, packets := SendOne(peers, sizeMin, sizeMax, bunchSize, from, packets);
        OneResult(before, peers.results, |old(peers.results)|);
        if end != Done {
          return;
        }
        StillSending(conns[..], old(log), had, log, k, sizeMin, sizeMax, from);
        k := k + 1;
      }
      return Done;
    }

    /** The whole test: a parameter check, then bunches, each received and forgotten before the next. It ends
        for what went wrong first. */
    method Run(peers: Peers, sizeMin: nat, sizeMax: nat, bunchesNum: nat, bunchSize: nat, from: Sender)
      returns (end: End)
      requires 0 < sizeMax && sizeMin <= sizeMax && conns.Length > 0
      requires forall i :: 0 <= i < conns.Length ==> conns[i] == Conn([], [])
      modifies this`log, conns, peers
      ensures end == TooMuchData <==> bunchSize * sizeMax > BunchLimit(sizeMax, conns.Length)
      ensures end == TooMuchData ==> peers.results == old(peers.results)
      ensures forall i :: 0 <= i < conns.Length ==> Bytes(conns[i]) <= MAX_BYTES_PER_CONN
      ensures end == Done ==> forall i :: 0 <= i < conns.Length ==> conns[i] == Conn([], [])
      ensures old(log) <= log && Bunch(log, |old(log)|, conns.Length, sizeMin, sizeMax, from)
      ensures end == Done ==> |log| == |old(log)| + bunchesNum * bunchSize
      ensures old(peers.results) <= peers.results
      ensures end in {SendFailed, ReceiveFailed} <==> !AllGood(peers.results, |old(peers.results)|)
      ensures end in {SendFailed, ReceiveFailed} ==>
                var last := peers.results[|peers.results| - 1]; Bad(last) && (end == SendFailed <==> last.Sent?)
      ensures end == Done ==> |peers.results| == |old(peers.results)| + bunchesNum * (bunchSize + conns.Length)
    {
      if bunchSize * sizeMax > MAX_BYTES_PER_CONN / sizeMax * sizeMax * conns.Length {
        return TooMuchData;
      }
      for j := 0 to bunchesNum
        invariant forall i :: 0 <= i < conns.Length ==> conns[i] == Conn([], [])
        invariant old(log) <= log && |log| == |old(log)| + j * bunchSize
        invariant Bunch(log, |old(log)|, conns.Length, sizeMin, sizeMax, from)
        invariant old(peers.results) <= peers.results && AllGood(peers.results, |old(peers.results)|)
        invariant |peers.results| == |old(peers.results)| + j * (bunchSize + conns.Length)
      {
        end := RunBunch(peers, sizeMin, sizeMax, bunchSize, from, |old(log)|, |old(peers.results)|);
        OneMore(j, bunchSize);
        OneMore(j, bunchSize + conns.Length);
        if end != Done {
          return;
        }
      }
      return Done;
    }

    /** One bunch and its reception; lo and first are where the packets and the results of the test begin. */
    method RunBunch(peers: Peers, sizeMin: nat, sizeMax: nat, bunchSize: nat, from: Sender,
                    ghost lo: nat, ghost first: nat) returns (end: End)
      requires 0 < sizeMax && sizeMin <= sizeMax && conns.Length > 0
      requires bunchSize * sizeMax <= BunchLimit(sizeMax, conns.Length)
      requires forall i :: 0 <= i < conns.Length ==> conns[i] == Conn([], [])
      requires lo <= |log| && Bunch(log, lo, conns.Length, sizeMin, sizeMax, from)
      requires first <= |peers.results| && AllGood(peers.results, first)
      modifies this`log, conns, peers
      ensures end in {Done, ChoiceFailed, SendFailed, ReceiveFailed}
      ensures old(log) <= log && Bunch(log, lo, conns.Length, sizeMin, sizeMax, from)
      ensures forall i :: 0 <= i < conns.Length ==> Bytes(conns[i]) <= MAX_BYTES_PER_CONN
      ensures end == Done ==> forall i :: 0 <= i < conns.Length ==> conns[i] == Conn([], [])
      ensures end == Done ==> |log| == |old(log)| + bunchSize
      ensures end == Done ==> |peers.results| == |old(peers.results)| + bunchSize + conns.Length
      ensures old(peers.results) <= peers.results
      ensures end in {SendFailed, ReceiveFailed} <==> !AllGood(peers.results, first)
      ensures end in {SendFailed, ReceiveFailed} ==>
                |peers.results| > first
                && (var last := peers.results[|peers.results| - 1]; Bad(last) && (end == SendFailed <==> last.Sent?))
    {
      ghost var had, before := log, peers.results;
      end := SendBunch(peers, sizeMin, sizeMax, bunchSize, from);
      BunchOn(had, log, lo, conns.Length, sizeMin, sizeMax, from);
      GoodOn(before, peers.results, first);
      if end != Done {
        return;
      }
      before := peers.results;
      var received := Receive(peers);
      GoodOn(before, peers.results, first);
      if !received {
        return ReceiveFailed;
      }
    }

    /** Receive everything on every connection and forget it. */
    method Receive(peers: Peers) returns (ok: bool)
      requires forall i :: 0 <= i < conns.Length ==> Bytes(conns[i]) <= MAX_BYTES_PER_CONN
      modifies conns, peers
      ensures forall i :: 0 <= i < conns.Length ==> Bytes(conns[i]) <= MAX_BYTES_PER_CONN
      ensures ok ==> forall i :: 0 <= i < conns.Length ==> conns[i] == Conn([], [])
      ensures old(peers.results) <= peers.results
      ensures ok <==> AllGood(peers.results, |old(peers.results)|)
      ensures ok ==> |peers.results| == |old(peers.results)| + conns.Length
      ensures !ok ==> |peers.results| > |old(peers.results)| && peers.results[|peers.results| - 1] == Received(false)
    {
      for i := 0 to conns.Length
        invariant forall m :: 0 <= m < i ==> conns[m] == Conn([], [])
        invariant forall m :: 0 <= m < conns.Length ==> Bytes(conns[m]) <= MAX_BYTES_PER_CONN
        invariant old(peers.results) <= peers.results && |peers.results| == |old(peers.results)| + i
        invariant AllGood(peers.results, |old(peers.results)|)
      {
        ghost var before := peers.results;
        var received := peers.Receive();
        OneResult(before, peers.results, |old(peers.results)|);
        if !received {
          return false;
        }
        conns[i] := Conn([], []);
      }
      return true;
    }
  }

  /** All these results are of sends, and only the last one may be bad. */
  ghost predicate AllSent(results: seq<Result>, lo: nat) {
    forall k :: lo <= k < |results| ==> results[k].Sent? && (k < |results| - 1 ==> !Bad(results[k]))
  }

  lemma OneResult(before: seq<Result>, results: seq<Result>, lo: nat)
    requires lo <= |before| && before <= results && AllGood(before, lo)
    requires |results| <= |before| + 1
    ensures AllGood(results, lo) <==> |results| == |before| || !Bad(results[|before|])
  {
    assert forall k :: lo <= k < |before| ==> results[k] == before[k];
  }

  lemma GoodOn(before: seq<Result>, results: seq<Result>, lo: nat)
    requires lo <= |before| && before <= results && AllGood(before, lo)
    ensures AllGood(results, lo) <==> AllGood(results, |before|)
  {
    assert forall k :: lo <= k < |before| ==> results[k] == before[k];
  }

  /** After k packets of a bunch: the connections hold just these. */
  ghost predicate Sending(conns: seq<Conn>, before: seq<Packet>, log: seq<Packet>, k: nat,
                          sizeMin: nat, sizeMax: nat, from: Sender) {
    && before <= log && |log| == |before| + k
    && Bunch(log, |before|, |conns|, sizeMin, sizeMax, from) && conns == Replay(log, |before|, |conns|)
  }

  lemma StillSending(now: seq<Conn>, before: seq<Packet>, had: seq<Packet>, log: seq<Packet>, k: nat,
                     sizeMin: nat, sizeMax: nat, from: Sender)
    requires |log| == |had| + 1 && log[..|had|] == had && before <= had && |had| == |before| + k
    requires Bunch(had, |before|, |now|, sizeMin, sizeMax, from)
    requires Proper(log[|had|], |now|, from) && sizeMin <= |log[|had|].data| <= sizeMax
    requires var p, was := log[|had|], Replay(had, |before|, |now|); now == was[p.i := After(was[p.i], p)]
    ensures Sending(now, before, log, k + 1, sizeMin, sizeMax, from)
  {
    OneSent(had, log, |before|, |now|, sizeMin, sizeMax, from);
  }

  /** One more packet of a bunch. */
  lemma OneSent(had: seq<Packet>, log: seq<Packet>, lo: nat, n: nat, sizeMin: nat, sizeMax: nat, from: Sender)
    requires lo <= |had| && Bunch(had, lo, n, sizeMin, sizeMax, from)
    requires |log| == |had| + 1 && log[..|had|] == had
    requires Proper(log[|had|], n, from) && sizeMin <= |log[|had|].data| <= sizeMax
    ensures had <= log && Bunch(log, lo, n, sizeMin, sizeMax, from)
    ensures var p, was := log[|had|], Replay(had, lo, n); Replay(log, lo, n) == was[p.i := After(was[p.i], p)]
  {
    assert forall k :: lo <= k < |had| ==> log[k] == had[k];
  }

  lemma BunchOn(had: seq<Packet>, log: seq<Packet>, lo: nat, n: nat, sizeMin: nat, sizeMax: nat, from: Sender)
    requires lo <= |had| && had <= log && Bunch(had, lo, n, sizeMin, sizeMax, from)
    requires Bunch(log, |had|, n, sizeMin, sizeMax, from)
    ensures Bunch(log, lo, n, sizeMin, sizeMax, from)
  {
    assert forall k :: lo <= k < |had| ==> log[k] == had[k];
  }

  /** What the packets log[lo..] leave on n connections that were empty. */
  ghost function Replay(log: seq<Packet>, lo: nat, n: nat): seq<Conn>
    requires lo <= |log| && forall k :: lo <= k < |log| ==> log[k].i < n && log[k].taken <= |log[k].data|
    ensures |Replay(log, lo, n)| == n
  {
    if |log| == lo then seq(n, _ => Conn([], []))
    else
      var p := log[|log| - 1];
      var was := Replay(log[..|log| - 1], lo, n);
      was[p.i := After(was[p.i], p)]
  }

  lemma OneMorePacket(was: seq<Conn>, now: seq<Conn>, packets: seq<nat>, i: nat, len: nat, sizeMax: nat)
    requires Carries(was, packets, sizeMax) && i < |was| == |now| && len <= sizeMax
    requires forall k :: 0 <= k < |was| && k != i ==> now[k] == was[k]
    requires HasRoom(was[i], len) && Bytes(now[i]) <= Bytes(was[i]) + len
    ensures Carries(now, packets[i := packets[i] + 1], sizeMax)
  {
    assert (packets[i] + 1) * sizeMax == packets[i] * sizeMax + sizeMax;
  }
}
