/** Draining many connections on Tester and comparing with what IUT sent
    (zfts_tcp_conns_read_check_data_tst()). */
module ConnDrain {
  import opened Basics
  import opened Sums

  /** A read of up to amount bytes on connection i, and how many it brought. */
  datatype Read = Read(i: nat, amount: nat, got: int)

  /** The Tester sockets: what is still to come out of each. A read takes a prefix, no longer than asked
      for, and possibly nothing. */
  class Sockets {
    var incoming: seq<seq<Byte>>
    ghost var history: seq<Read>

    method Receive(i: nat, amount: nat) returns (got: seq<Byte>)
      requires i < |incoming| && amount > 0
      modifies this
      ensures |got| <= amount && got <= old(incoming)[i]
      ensures incoming == old(incoming)[i := old(incoming)[i][|got|..]]
      ensures history == old(history) + [Read(i, amount, |got|)]
    {
      var n: int := *;
      got := if 0 <= n <= amount && n <= |incoming[i]| then incoming[i][..n] else [];
      incoming := incoming[i := incoming[i][|got|..]];
      history := history + [Read(i, amount, |got|)];
    }
  }

  /** What was read of each stream is what came in first; left[i] is how much may still be read on
      connection i: what was sent and not received yet. */
  ghost predicate Draining(sent: seq<seq<Byte>>, received: seq<seq<Byte>>, incoming: seq<seq<Byte>>,
                           streams: seq<seq<Byte>>, left: seq<nat>) {
    && |sent| == |received| == |incoming| == |streams| == |left|
    && forall i :: 0 <= i < |sent| ==> |received[i]| + left[i] == |sent[i]| && received[i] + incoming[i] == streams[i]
  }

  /** The reads of a round that begins with left and ends with after: on each of the first k connections
      one read for all that is left there. */
  function RoundReads(left: seq<nat>, after: seq<nat>, k: nat): seq<Read>
    requires k <= |left| == |after|
  {
    if k == 0 then []
    else RoundReads(left, after, k - 1) + OneRead(k - 1, left[k - 1], after[k - 1])
  }

  function OneRead(i: nat, left: int, after: int): seq<Read> {
    if left > 0 then [Read(i, left, left - after)] else []
  }

  lemma {:induction false} RoundReadsSame(left: seq<nat>, a: seq<nat>, b: seq<nat>, k: nat)
    requires k <= |left| == |a| == |b| && forall i :: 0 <= i < k ==> a[i] == b[i]
    ensures RoundReads(left, a, k) == RoundReads(left, b, k)
  {
    if k > 0 {
      RoundReadsSame(left, a, b, k - 1);
    }
  }

  /** One read more. */
  lemma RoundReadsNext(left: seq<nat>, before: seq<nat>, i: nat, n: nat)
    requires i < |left| == |before| && before[i] == left[i] && n <= left[i]
    ensures var after := before[i := left[i] - n];
            && RoundReads(left, after, i + 1) == RoundReads(left, before, i) + OneRead(i, left[i], left[i] - n)
            && Sum(after) + n == Sum(before)
  {
    var after := before[i := left[i] - n];
    RoundReadsUnfold(left, after, i);
    RoundReadsSame(left, before, after, i);
    SumUpdate(before, i, left[i] - n);
  }

  lemma RoundReadsUnfold(left: seq<nat>, after: seq<nat>, k: nat)
    requires k < |left| == |after|
    ensures RoundReads(left, after, k + 1) == RoundReads(left, after, k) + OneRead(k, left[k], after[k])
  {
  }

  /** One connection of a round. */
  method ReadOne(socks: Sockets, sent: seq<seq<Byte>>, received: array<seq<Byte>>, i: nat,
                 ghost streams: seq<seq<Byte>>, ghost left: seq<nat>) returns (n: nat)
    requires i < |sent| && Draining(sent, received[..], socks.incoming, streams, left)
    modifies socks, received
    ensures n <= left[i] && Draining(sent, received[..], socks.incoming, streams, left[i := left[i] - n])
    ensures socks.history == old(socks.history) + if left[i] > 0 then [Read(i, left[i], n)] else []
  {
    var leftLen: nat := |sent[i]| - |received[i]|;
    if leftLen == 0 {
      return 0;
    }
    ghost var was := received[..];
    var got := socks.Receive(i, leftLen);
    received[i] := received[i] + got;
    assert received[..] == was[i := was[i] + got];
    return |got|;
  }

  /** One round over all connections; after is what is left then. */
  method ReadRound(socks: Sockets, sent: seq<seq<Byte>>, received: array<seq<Byte>>,
                   ghost streams: seq<seq<Byte>>, ghost left: seq<nat>) returns (receivedLen: nat, ghost after: seq<nat>)
    requires Draining(sent, received[..], socks.incoming, streams, left)
    modifies socks, received
    ensures Draining(sent, received[..], socks.incoming, streams, after)
    ensures Sum(after) + receivedLen == Sum(left)
    ensures socks.history == old(socks.history) + RoundReads(left, after, |sent|)
  {
    receivedLen, after := 0, left;
    for i := 0 to received.Length
      invariant Draining(sent, received[..], socks.incoming, streams, after)
      invariant Sum(after) + receivedLen == Sum(left)
      invariant forall k :: i <= k < |left| ==> after[k] == left[k]
      invariant socks.history == old(socks.history) + RoundReads(left, after, i)
    {
      var n := ReadOne(socks, sent, received, i, streams, after);
      RoundReadsNext(left, after, i, n);
      after := after[i := left[i] - n];
      receivedLen := receivedLen + n;
    }
  }

  /** ZFTS_CHECK_RECEIVED_DATA */
  datatype Verdict = Ok | Less | More | Differs

  function Check(received: seq<Byte>, sent: seq<Byte>): Verdict {
    if |received| < |sent| then Less
    else if |received| > |sent| then More
    else if received != sent then Differs
    else Ok
  }

  /** No two rounds in a row brought nothing. */
  predicate StillGoing(rounds: seq<nat>) {
    var n := |rounds|;
    n < 2 || ((rounds[n - 1] > 0 || rounds[n - 2] > 0) && StillGoing(rounds[..n - 1]))
  }

  /** Rounds end with the first two in a row that brought nothing. */
  predicate EndsQuiet(rounds: seq<nat>) {
    var n := |rounds|;
    n >= 2 && rounds[n - 1] == rounds[n - 2] == 0 && StillGoing(rounds[..n - 1])
  }

  /** In terms of rounds: the last two brought nothing, and of no two before did neither. */
  lemma {:induction false} QuietEnd(rounds: seq<nat>)
    ensures StillGoing(rounds) <==> forall k :: 0 <= k < |rounds| - 1 ==> rounds[k] > 0 || rounds[k + 1] > 0
    ensures EndsQuiet(rounds) <==>
            && |rounds| >= 2 && rounds[|rounds| - 1] == rounds[|rounds| - 2] == 0
            && forall k :: 0 <= k < |rounds| - 2 ==> rounds[k] > 0 || rounds[k + 1] > 0
  {
    if |rounds| >= 2 {
      var n := |rounds| - 1;
      QuietEnd(rounds[..n]);
      assert forall k :: 0 <= k < n ==> rounds[..n][k] == rounds[k];
    }
  }

  predicate LastQuiet(rounds: seq<nat>) { rounds != [] && rounds[|rounds| - 1] == 0 }

  /** All reads of these rounds. */
  function AllReads(lefts: seq<seq<nat>>, n: nat): seq<Read> {
    var m := |lefts|;
    if m < 2 || |lefts[m - 2]| != n || |lefts[m - 1]| != n then []
    else AllReads(lefts[..m - 1], n) + RoundReads(lefts[m - 2], lefts[m - 1], n)
  }

  /** What each of these rounds brought. */
  function Brought(lefts: seq<seq<nat>>): seq<int> {
    var m := |lefts|;
    if m < 2 then [] else Brought(lefts[..m - 1]) + [Fall(lefts[m - 2], lefts[m - 1])]
  }

  function Fall(left: seq<nat>, after: seq<nat>): int { Sum(left) - Sum(after) }

  /** One round more. */
  lemma RoundAdded(lefts: seq<seq<nat>>, after: seq<nat>, n: nat)
    requires lefts != [] && |lefts[|lefts| - 1]| == |after| == n
    ensures AllReads(lefts + [after], n) == AllReads(lefts, n) + RoundReads(lefts[|lefts| - 1], after, n)
    ensures Brought(lefts + [after]) == Brought(lefts) + [Fall(lefts[|lefts| - 1], after)]
  {
    assert (lefts + [after])[..|lefts|] == lefts;
  }

  /** What was left to read before each round and after the last one, what each round brought, and all
      reads so far. */
  ghost predicate Rounds(lefts: seq<seq<nat>>, rounds: seq<nat>, log: seq<Read>, sent: seq<seq<Byte>>) {
    && lefts != [] && lefts[0] == Lengths(sent) && |lefts[|lefts| - 1]| == |sent|
    && rounds == Brought(lefts) && log == AllReads(lefts, |sent|)
  }

  lemma OneRound(lefts: seq<seq<nat>>, rounds: seq<nat>, log: seq<Read>, sent: seq<seq<Byte>>, after: seq<nat>, n: nat)
    requires Rounds(lefts, rounds, log, sent) && |after| == |sent|
    requires var left := lefts[|lefts| - 1]; Sum(after) + n == Sum(left)
    ensures Rounds(lefts + [after], rounds + [n], log + RoundReads(lefts[|lefts| - 1], after, |sent|), sent)
  {
    RoundAdded(lefts, after, |sent|);
    var more, d := lefts + [after], Fall(lefts[|lefts| - 1], after);
    assert more[0] == lefts[0] && more[|more| - 1] == after;
    assert n == d;
    SameRounds(rounds, Brought(lefts), n, d);
  }

  lemma SameRounds(rounds: seq<nat>, brought: seq<int>, n: nat, d: int)
    requires rounds == brought && n == d
    ensures rounds + [n] == brought + [d]
  {
  }

  /** One round and its entry in the record. */
  method RecordRound(socks: Sockets, sent: seq<seq<Byte>>, received: array<seq<Byte>>, rounds: seq<nat>,
                     ghost streams: seq<seq<Byte>>, ghost lefts: seq<seq<nat>>, ghost log: seq<Read>)
    returns (receivedLen: nat, ghost after: seq<nat>, ghost log': seq<Read>)
    requires Rounds(lefts, rounds, log, sent)
    requires Draining(sent, received[..], socks.incoming, streams, lefts[|lefts| - 1])
    modifies socks, received
    ensures Draining(sent, received[..], socks.incoming, streams, after)
    ensures Rounds(lefts + [after], rounds + [receivedLen], log', sent)
    ensures Sum(after) + receivedLen == Sum(lefts[|lefts| - 1])
    ensures log <= log' && socks.history == old(socks.history) + log'[|log|..]
  {
    receivedLen, after := ReadRound(socks, sent, received, streams, lefts[|lefts| - 1]);
    ghost var round := RoundReads(lefts[|lefts| - 1], after, |sent|);
    OneRound(lefts, rounds, log, sent, after, receivedLen);
    log' := log + round;
    assert log'[|log|..] == round;
  }

  lemma Appended(before: seq<Read>, log: seq<Read>, log': seq<Read>)
    requires log <= log'
    ensures before + log + log'[|log|..] == before + log'
  {
  }

  /** Read until two rounds in a row bring nothing; rounds[k] is how much round k brought. */
  method Drain(socks: Sockets, sent: seq<seq<Byte>>)
    returns (received: array<seq<Byte>>, rounds: seq<nat>, ghost lefts: seq<seq<nat>>, ghost log: seq<Read>)
    requires |sent| == |socks.incoming|
    modifies socks
    ensures Rounds(lefts, rounds, log, sent) && EndsQuiet(rounds)
    ensures Draining(sent, received[..], socks.incoming, old(socks.incoming), lefts[|lefts| - 1])
    ensures socks.history == old(socks.history) + log
  {
    received := new seq<Byte>[|sent|](_ => []);
    var prevFailed := false;
    rounds, log := [], [];
    ghost var left, streams, before := Lengths(sent), socks.incoming, socks.history;
    lefts := [left];
    while true
      invariant fresh(received) && lefts != [] && lefts[|lefts| - 1] == left
      invariant Rounds(lefts, rounds, log, sent)
      invariant Draining(sent, received[..], socks.incoming, streams, left)
      invariant StillGoing(rounds) && prevFailed == LastQuiet(rounds)
      invariant socks.history == before + log
      decreases Sum(left), !prevFailed
    {
      var receivedLen, after, now := RecordRound(socks, sent, received, rounds, streams, lefts, log);
      Appended(before, log, now);
      OneMoreRound(rounds, receivedLen);
      left, lefts, log := after, lefts + [after], now;
      rounds := rounds + [receivedLen];
      if receivedLen > 0 {
        prevFailed := false;
      } else {
        if prevFailed {
          break;
        }
        prevFailed := true;
      }
    }
  }

  /** The rounds together brought all that is no longer left. */
  lemma {:induction false} BroughtTotal(lefts: seq<seq<nat>>, rounds: seq<nat>)
    requires lefts != [] && rounds == Brought(lefts)
    ensures Sum(lefts[0]) == Sum(rounds) + Sum(lefts[|lefts| - 1])
  {
    var m := |lefts|;
    if m >= 2 {
      var n := |rounds| - 1;
      assert rounds[..n] == Brought(lefts[..m - 1]);
      BroughtTotal(lefts[..m - 1], rounds[..n]);
    }
  }

  /** The checks in order; the verdict is that of the first connection with a difference. */
  method CheckAll(received: array<seq<Byte>>, sent: seq<seq<Byte>>) returns (v: Verdict, i: nat)
    requires received.Length == |sent|
    ensures i <= |sent| && received[..i] == sent[..i]
    ensures if v == Ok then i == |sent| else i < |sent| && v == Check(received[i], sent[i])
  {
    i := 0;
    while i < |sent|
      invariant 0 <= i <= |sent| && forall k :: 0 <= k < i ==> received[k] == sent[k]
    {
      v := Check(received[i], sent[i]);
      if v != Ok {
        return;
      }
      i := i + 1;
    }
    v := Ok;
  }

  /** zfts_tcp_conns_read_check_data_tst() passes exactly when every connection brought what was sent. */
  method DrainAndCheck(socks: Sockets, sent: seq<seq<Byte>>)
    returns (v: Verdict, i: nat, received: array<seq<Byte>>, ghost left: seq<nat>)
    requires |sent| == |socks.incoming|
    modifies socks
    ensures Draining(sent, received[..], socks.incoming, old(socks.incoming), left)
    ensures v == Ok <==> received[..] == sent
    ensures v == Ok ==> forall k :: 0 <= k < |sent| ==> sent[k] <= old(socks.incoming)[k]
    ensures v != Ok ==> i < |sent| && received[..i] == sent[..i] && v == Check(received[i], sent[i])
    ensures v == Less ==> |received[i]| < |sent[i]|
    ensures v == Differs ==> |received[i]| == |sent[i]| && !(sent[i] <= old(socks.incoming)[i])
    ensures v != More
  {
    ghost var streams := socks.incoming;
    var rounds;
    ghost var lefts, log;
    received, rounds, lefts, log := Drain(socks, sent);
    left := lefts[|lefts| - 1];
    v, i := CheckAll(received, sent);
    if v != Ok {
      Mismatch(received[i], sent[i], socks.incoming[i], streams[i]);
    }
  }

  lemma OneMoreRound(rounds: seq<nat>, n: nat)
    requires StillGoing(rounds)
    ensures if n == 0 && LastQuiet(rounds) then EndsQuiet(rounds + [n]) else StillGoing(rounds + [n])
    ensures LastQuiet(rounds + [n]) <==> n == 0
    ensures Sum(rounds + [n]) == Sum(rounds) + n
  {
    assert (rounds + [n])[..|rounds|] == rounds;
  }

  /** How long draining takes: at most two rounds for each byte received, and two more. */
  lemma {:induction false} RoundsBounded(rounds: seq<nat>)
    requires StillGoing(rounds) || EndsQuiet(rounds)
    ensures |rounds| <= 2 * Sum(rounds) + if EndsQuiet(rounds) then 2 else if LastQuiet(rounds) then 1 else 0
  {
    if rounds != [] {
      RoundsBounded(rounds[..|rounds| - 1]);
    }
  }

  function Lengths(sent: seq<seq<Byte>>): (r: seq<nat>)
    ensures |r| == |sent|
  {
    seq(|sent|, i requires 0 <= i < |sent| => |sent[i]|)
  }

  /** As many bytes as were sent, but others: what came in does not start with what was sent. */
  lemma Mismatch(received: seq<Byte>, sent: seq<Byte>, rest: seq<Byte>, stream: seq<Byte>)
    requires |received| <= |sent| && received + rest == stream
    ensures Check(received, sent) == Differs ==> !(sent <= stream)
    ensures Check(received, sent) != More
  {
  }
}
