/** The overfilling loops of the TCP buffer tests: which connection sends next, and when the loop ends. */
module Overfill {
  import opened Basics
  import opened Sums

  // ---------------------------------------------------------------- the scheduler

  /** How far i is ahead of start, going round n connections. */
  function Ahead(start: nat, i: nat, n: nat): int {
    if i >= start then i - start else i + n - start
  }

  /** sel is the first connection not overfilled, going round from start. */
  ghost predicate FirstFrom(over: seq<bool>, start: nat, sel: nat) {
    && sel < |over| && !over[sel]
    && forall i :: 0 <= i < |over| && !over[i] ==> Ahead(start, sel, |over|) <= Ahead(start, i, |over|)
  }

  ghost predicate AllOver(over: seq<bool>) {
    forall i :: 0 <= i < |over| ==> over[i]
  }

  /** One turn of the loop: what was overfilled, where the search started, who was selected. */
  datatype Turn = Turn(over: seq<bool>, start: nat, sel: nat)

  /** Turn k of a run over n connections: the search starts where the previous turn left it, and only
      the connection selected then may have become overfilled since. */
  ghost predicate TurnOk(turns: seq<Turn>, k: nat, n: nat, gradual: bool)
    requires k < |turns|
  {
    var t := turns[k];
    && |t.over| == n && t.start < n && FirstFrom(t.over, t.start, t.sel)
    && if k == 0 then t.start == 0 else Follows(turns[k - 1], t, n, gradual)
  }

  ghost predicate Follows(p: Turn, t: Turn, n: nat, gradual: bool) {
    && |p.over| == |t.over| == n
    && t.start == (if gradual then Succ(p.sel, n) else 0)
    && forall i :: 0 <= i < n && i != p.sel ==> t.over[i] == p.over[i]
  }

  ghost predicate Schedule(turns: seq<Turn>, n: nat, gradual: bool) {
    forall k :: 0 <= k < |turns| ==> TurnOk(turns, k, n, gradual)
  }

  predicate Full(t: Turn, i: nat) { i < |t.over| && t.over[i] }

  function Succ(i: nat, n: nat): nat { if i + 1 == n then 0 else i + 1 }

  lemma ModSucc(i: nat, n: nat)
    requires i < n
    ensures (i + 1) % n == Succ(i, n)
  {
  }

  /** Not overfilled at turn b means not overfilled at any turn before. */
  lemma {:induction false} NeverBefore(turns: seq<Turn>, n: nat, gradual: bool, a: nat, b: nat, i: nat)
    requires Schedule(turns, n, gradual) && a <= b < |turns| && i < n && !Full(turns[b], i)
    ensures !Full(turns[a], i)
    decreases b
  {
    if a < b {
      assert TurnOk(turns, b, n, gradual) && TurnOk(turns, b - 1, n, gradual);
      NeverBefore(turns, n, gradual, a, b - 1, i);
    }
  }

  /** How often i is selected in turns lo up to hi. */
  ghost function Times(turns: seq<Turn>, i: nat, lo: nat, hi: nat): nat
    requires lo <= hi <= |turns|
  {
    if lo == hi then 0 else Times(turns, i, lo, hi - 1) + if turns[hi - 1].sel == i then 1 else 0
  }

  /** Between a selection of c at turn a and turn k, with c not selected again: i was selected once if
      the search has passed it, and not at all otherwise. */
  lemma {:induction false} Sweep(turns: seq<Turn>, n: nat, a: nat, k: nat, c: nat, i: nat)
    requires Schedule(turns, n, true) && a < k < |turns| && c < n && i < n && i != c
    requires turns[a].sel == c && !Full(turns[k], c) && !Full(turns[k], i)
    requires forall m :: a < m < k ==> turns[m].sel != c
    ensures Times(turns, i, a + 1, k) ==
            if Ahead(Succ(c, n), turns[k].start, n) <= Ahead(Succ(c, n), i, n) then 0 else 1
    decreases k
  {
    var s := Succ(c, n);
    assert TurnOk(turns, k, n, true) && TurnOk(turns, k - 1, n, true);
    if k > a + 1 {
      NeverBefore(turns, n, true, k - 1, k, c);
      NeverBefore(turns, n, true, k - 1, k, i);
      Sweep(turns, n, a, k - 1, c, i);
      var t := turns[k - 1];
      SweepStep(t.over, t.start, t.sel, s, c, i, n);
    }
  }

  /** One turn of the sweep, measured from the connection s after c. */
  lemma SweepStep(over: seq<bool>, start: nat, sel: nat, s: nat, c: nat, i: nat, n: nat)
    requires |over| == n && start < n && c < n && i < n && i != c && s == Succ(c, n)
    requires FirstFrom(over, start, sel) && sel != c && !over[c] && !over[i]
    ensures var p, q, d := Ahead(s, start, n), Ahead(s, Succ(sel, n), n), Ahead(s, i, n);
            if sel == i then p <= d < q else (p <= d <==> q <= d)
  {
    assert Ahead(start, sel, n) <= Ahead(start, c, n);
    assert Ahead(start, sel, n) <= Ahead(start, i, n);
  }

  /** Fairness of gradual overfilling: between two consecutive selections of a connection every other
      connection that is still not overfilled at the second one was selected exactly once. */
  lemma GradualIsFair(turns: seq<Turn>, n: nat, a: nat, b: nat, i: nat)
    requires Schedule(turns, n, true) && a < b < |turns|
    requires turns[a].sel == turns[b].sel && forall m :: a < m < b ==> turns[m].sel != turns[a].sel
    requires i < n && i != turns[a].sel && !Full(turns[b], i)
    ensures Times(turns, i, a + 1, b) == 1
  {
    var c := turns[a].sel;
    assert TurnOk(turns, a, n, true) && TurnOk(turns, b, n, true);
    Sweep(turns, n, a, b, c, i);
    assert Ahead(turns[b].start, c, n) <= Ahead(turns[b].start, i, n);
  }

  /** Without gradual, everything below the selected connection is overfilled already. */
  lemma SuccessiveOrder(turns: seq<Turn>, n: nat, k: nat, i: nat)
    requires Schedule(turns, n, false) && k < |turns| && i < turns[k].sel
    ensures Full(turns[k], i)
  {
    assert TurnOk(turns, k, n, false);
  }

  // ---------------------------------------------------------------- the loop

  /** The fields of zfts_tcp_conn the loop works on: iut_sent (or tst_sent), send_overfilled (or
      recv_overfilled) and fails. */
  datatype Conn = Conn(sent: seq<Byte>, over: bool, fails: nat)

  function Overs(conns: seq<Conn>): (r: seq<bool>) {
    seq(|conns|, k requires 0 <= k < |conns| => conns[k].over)
  }

  function Lengths(conns: seq<Conn>): seq<nat> {
    seq(|conns|, k requires 0 <= k < |conns| => |conns[k].sent|)
  }

  function Fails(conns: seq<Conn>): seq<nat> {
    seq(|conns|, k requires 0 <= k < |conns| => conns[k].fails)
  }

  datatype Errno = Fine | Again | NoMem | Other

  /** One send: on which connection, and how it ended. */
  datatype Sent = Sent(i: nat, errno: Errno)

  /** Everything between the two ends: zocket buffers, peer buffers and the wire. A send that succeeds
      takes at least one byte, of the room that is left in all of them together; processing events
      only moves bytes inside. */
  class Net {
    var room: nat
    var accepted: seq<seq<Byte>>      // what the sends of every connection were accepted for
    ghost var sends: seq<Sent>
    ghost var last: Errno             // how the last send ended
    ghost var eventsFailed: bool

    method Send(i: nat, data: seq<Byte>) returns (rc: int, errno: Errno)
      requires i < |accepted| && data != []
      modifies this`room, this`accepted, this`sends, this`last
      ensures rc != 0 && rc <= |data| && last == errno && (rc < 0 <==> errno != Fine)
      ensures sends == old(sends) + [Sent(i, errno)]
      ensures if rc < 0 then room == old(room) && accepted == old(accepted)
              else rc <= old(room) && room == old(room) - rc
                   && accepted == old(accepted)[i := old(accepted)[i] + data[..rc]]
    {
      rc, errno := *, *;
      if 0 < rc <= |data| && rc <= room {
        room := room - rc;
        accepted := accepted[i := accepted[i] + data[..rc]];
        errno := Fine;
      } else {
        rc := -1;
        errno := if errno == Fine then Again else errno;
      }
      sends, last := sends + [Sent(i, errno)], errno;
    }

    method ProcessEvents() returns (rc: int)
      modifies this`eventsFailed
      ensures eventsFailed == (old(eventsFailed) || rc < 0)
    {
      rc := *;
      eventsFailed := eventsFailed || rc < 0;
    }
  }

  datatype End = Finished | UnexpectedErrno | EventsFailed

  /** The two tests: sending from the zockets, or from the sockets on Tester. */
  datatype Side = Zocket | Tester

  const EXTRA_ATTEMPTS := 5

  /** A connection counts as overfilled from this failure on. */
  function Limit(side: Side): nat { if side == Zocket then EXTRA_ATTEMPTS else 1 }

  predicate Unexpected(side: Side, errno: Errno) {
    errno == Other || (side == Tester && errno == NoMem)
  }

  /** Whether a send that ended so counts as a failure of its connection. */
  predicate IsFailure(side: Side, errno: Errno) {
    errno != Fine && (side == Zocket || errno == Again)
  }

  /** How often sends on connection i failed, so that it counts. */
  function Failures(sends: seq<Sent>, i: nat, side: Side): nat {
    var m := multiset(sends);
    m[Sent(i, Again)] + if side == Zocket then m[Sent(i, NoMem)] + m[Sent(i, Other)] else 0
  }

  /** From a zocket every failed send counts, and the fifth overfills the connection; from Tester only the
      one that fails with EAGAIN counts, and overfills it. */
  ghost predicate ConnCounts(c: Conn, i: nat, sends: seq<Sent>, side: Side) {
    var m := multiset(sends);
    match side
    case Zocket =>
      && c.fails == m[Sent(i, Again)] + m[Sent(i, NoMem)] + m[Sent(i, Other)]
      && c.fails <= 5 && (c.over <==> c.fails == 5)
    case Tester =>
      && c.fails == m[Sent(i, Again)]
      && c.fails <= 1 && (c.over <==> c.fails == 1)
  }

  lemma FailuresOne(sends: seq<Sent>, one: Sent, i: nat, side: Side)
    ensures Failures(sends + [one], i, side) ==
            Failures(sends, i, side) + if one.i == i && IsFailure(side, one.errno) then 1 else 0
  {
    assert multiset(sends + [one]) == multiset(sends) + multiset{one};
  }

  /** No send failed in a way the test does not expect. */
  ghost predicate AllExpected(sends: seq<Sent>, side: Side) {
    forall k :: 0 <= k < |sends| ==> !Unexpected(side, sends[k].errno)
  }

  /** Every connection holds what its sends were accepted for, and counts how often they failed. */
  ghost predicate Recorded(conns: seq<Conn>, accepted: seq<seq<Byte>>, sends: seq<Sent>, side: Side) {
    && |accepted| == |conns|
    && forall i :: 0 <= i < |conns| ==> conns[i].sent == accepted[i] && conns[i].fails == Failures(sends, i, side)
  }

  /** Recording one send. */
  lemma OneRecorded(was: seq<Conn>, now: seq<Conn>, accepted: seq<seq<Byte>>, accepted': seq<seq<Byte>>,
                    sends: seq<Sent>, one: Sent, side: Side)
    requires Recorded(was, accepted, sends, side) && one.i < |was| == |now| == |accepted'|
    requires forall k :: 0 <= k < |was| && k != one.i ==> now[k] == was[k] && accepted'[k] == accepted[k]
    requires now[one.i].sent == accepted'[one.i]
    requires now[one.i].fails == was[one.i].fails + if IsFailure(side, one.errno) then 1 else 0
    ensures Recorded(now, accepted', sends + [one], side)
  {
    forall i | 0 <= i < |now|
      ensures now[i].sent == accepted'[i] && now[i].fails == Failures(sends + [one], i, side)
    {
      FailuresOne(sends, one, i, side);
    }
  }

  /** The connection after a send that took rc bytes or failed. */
  function Booked(c: Conn, data: seq<Byte>, rc: int, errno: Errno, side: Side): Conn
    requires rc <= |data|
  {
    if rc >= 0 then c.(sent := c.sent + data[..rc])
    else if IsFailure(side, errno) then
      c.(fails := c.fails + 1, over := c.over || side == Tester || c.fails + 1 == EXTRA_ATTEMPTS)
    else c
  }

  lemma BookedEffects(was: seq<Conn>, i: nat, data: seq<Byte>, rc: int, errno: Errno, side: Side)
    requires i < |was| && rc <= |data| && (rc < 0 <==> errno != Fine) && !was[i].over && Counted(was, Limit(side))
    ensures var now := was[i := Booked(was[i], data, rc, errno, side)];
            && Counted(now, Limit(side))
            && Sum(Lengths(now)) == Sum(Lengths(was)) + (if rc < 0 then 0 else rc)
            && Sum(Fails(now)) == Sum(Fails(was)) + if IsFailure(side, errno) then 1 else 0
  {
    OneChanged(was, was[i := Booked(was[i], data, rc, errno, side)], i);
  }

  /** Turn k of the loop made send k, on the connection it selected. */
  ghost predicate SentInTurns(sends: seq<Sent>, turns: seq<Turn>) {
    |sends| == |turns| && forall k :: 0 <= k < |turns| ==> sends[k].i == turns[k].sel
  }

  ghost predicate Counted(conns: seq<Conn>, limit: nat) {
    forall i :: 0 <= i < |conns| ==> conns[i].fails <= limit && (conns[i].over <==> conns[i].fails == limit)
  }

  class Overfiller {
    var conns: array<Conn>
    const side: Side
    ghost var turns: seq<Turn>

    constructor (n: nat, side: Side)
      ensures fresh(conns) && conns.Length == n && this.side == side && turns == []
      ensures forall i :: 0 <= i < n ==> conns[i] == Conn([], false, 0)
    {
      conns := new Conn[n](_ => Conn([], false, 0));
      this.side := side;
      turns := [];
    }

    /** The selection loop; the number of connections when all are overfilled. */
    method Select(start: nat) returns (sel: nat)
      requires start < conns.Length || conns.Length == 0
      ensures sel <= conns.Length
      ensures sel == conns.Length ==> AllOver(Overs(conns[..]))
      ensures sel < conns.Length ==> FirstFrom(Overs(conns[..]), start, sel)
    {
      var n := conns.Length;
      var i: nat, j: nat := start, 0;
      while j < n
        invariant 0 <= j <= n
        invariant n > 0 ==> i < n && i == if start + j < n then start + j else start + j - n
        invariant forall k :: 0 <= k < n && Ahead(start, k, n) < j ==> conns[k].over
      {
        if !conns[i].over {
          return i;
        }
        ModSucc(i, n);
        i, j := (i + 1) % n, j + 1;
      }
      assert forall k :: 0 <= k < n ==> Ahead(start, k, n) < n;
      return n;
    }

    /** One send on connection i and the bookkeeping after it. bad is an errno the test does not expect:
        a send from a zocket counts as a failure even then, one from Tester does not. */
    method SendOnce(net: Net, i: nat, data: seq<Byte>) returns (bad: bool)
      requires i < conns.Length && !conns[i].over && data != [] && Counted(conns[..], Limit(side))
      requires Recorded(conns[..], net.accepted, net.sends, side)
      modifies conns, net`room, net`accepted, net`sends, net`last
      ensures Recorded(conns[..], net.accepted, net.sends, side) && Counted(conns[..], Limit(side))
      ensures net.sends == old(net.sends) + [Sent(i, net.last)]
      ensures forall k :: 0 <= k < conns.Length && k != i ==> conns[k] == old(conns[k])
      ensures net.room + Sum(Lengths(conns[..])) == old(net.room + Sum(Lengths(conns[..])))
      ensures net.room <= old(net.room) && (bad <==> net.last == Other || (side == Tester && net.last == NoMem))
      ensures Sum(Fails(conns[..])) ==
              old(Sum(Fails(conns[..]))) + if net.room < old(net.room) || (bad && side == Tester) then 0 else 1
    {
      ghost var was := conns[..];
      var rc, errno := net.Send(i, data);
      bad := Book(i, data, rc, errno);
      BookedEffects(was, i, data, rc, errno, side);
      OneRecorded(was, conns[..], old(net.accepted), net.accepted, old(net.sends), Sent(i, errno), side);
    }

    /** The bookkeeping after a send. */
    method Book(i: nat, data: seq<Byte>, rc: int, errno: Errno) returns (bad: bool)
      requires i < conns.Length && rc <= |data| && (rc < 0 <==> errno != Fine)
      modifies conns
      ensures conns[..] == old(conns[..])[i := Booked(old(conns[i]), data, rc, errno, side)]
      ensures bad <==> Unexpected(side, errno)
    {
      bad := false;
      if rc < 0 {
        match side
        case Zocket =>
          conns[i] := conns[i].(fails := conns[i].fails + 1);
          if conns[i].fails == EXTRA_ATTEMPTS {
            conns[i] := conns[i].(over := true);
          }
          bad := errno != Again && errno != NoMem;
        case Tester =>
          if errno == Again {
            conns[i] := conns[i].(over := true, fails := conns[i].fails + 1);
          } else {
            bad := true;
          }
      } else {
        conns[i] := conns[i].(sent := conns[i].sent + data[..rc]);
      }
    }

    /** Everything sent on a connection is what its sends were accepted for, it is overfilled exactly
        when they failed often enough, each turn made one send, and the turns so far are a schedule. */
    ghost predicate Running(net: Net, gradual: bool, next: nat)
      reads this, conns, net`accepted, net`sends
    {
      && (next < conns.Length || conns.Length == 0)
      && Counted(conns[..], Limit(side))
      && Recorded(conns[..], net.accepted, net.sends, side)
      && SentInTurns(net.sends, turns)
      && Schedule(turns, conns.Length, gradual)
      && FollowsOn(turns, conns.Length, gradual, Overs(conns[..]), next)
    }

    /** One turn of the loop; done when there is nothing left to overfill. */
    method TakeTurn(net: Net, gradual: bool, next: nat, data: seq<Byte>) returns (done: bool, bad: bool, next': nat)
      requires Running(net, gradual, next) && data != []
      modifies this`turns, conns, net`room, net`accepted, net`sends, net`last
      ensures Running(net, gradual, next')
      ensures net.room + Sum(Lengths(conns[..])) == old(net.room + Sum(Lengths(conns[..])))
      ensures done ==> AllOver(Overs(conns[..])) && turns == old(turns) && conns[..] == old(conns[..])
                       && net.room == old(net.room) && net.sends == old(net.sends) && !bad
      ensures !done ==> |net.sends| == |old(net.sends)| + 1 && old(net.sends) < net.sends
                        && net.sends[|old(net.sends)|].errno == net.last
      ensures !done ==> old(turns) < turns
                        && forall k :: 0 <= k < conns.Length && k != turns[|turns| - 1].sel ==> conns[k] == old(conns[k])
      ensures !done ==> |turns| == |old(turns)| + 1 && net.room <= old(net.room) && (bad <==> Unexpected(side, net.last))
      ensures !done ==> Sum(Fails(conns[..])) - net.room ==
                        old(Sum(Fails(conns[..])) - net.room) + Gain(old(net.room), net.room, bad && side == Tester)
    {
      bad := false;
      next' := if gradual then next else 0;
      var i := Select(next');
      if i >= conns.Length {
        return true, bad, next';
      }
      bad := TurnOn(net, gradual, next', i, data);
      ModSucc(i, conns.Length);
      return false, bad, (i + 1) % conns.Length;
    }

    /** The turn of the selected connection. */
    method TurnOn(net: Net, gradual: bool, ghost start: nat, i: nat, data: seq<Byte>) returns (bad: bool)
      requires Running(net, gradual, start) && data != [] && start < conns.Length && (!gradual ==> start == 0)
      requires FirstFrom(Overs(conns[..]), start, i)
      modifies this`turns, conns, net`room, net`accepted, net`sends, net`last
      ensures Running(net, gradual, Succ(i, conns.Length))
      ensures net.room + Sum(Lengths(conns[..])) == old(net.room + Sum(Lengths(conns[..])))
      ensures turns == old(turns) + [Turn(Overs(old(conns[..])), start, i)]
      ensures net.sends == old(net.sends) + [Sent(i, net.last)]
      ensures forall k :: 0 <= k < conns.Length && k != i ==> conns[k] == old(conns[k])
      ensures net.room <= old(net.room) && (bad <==> Unexpected(side, net.last))
      ensures Sum(Fails(conns[..])) - net.room ==
              old(Sum(Fails(conns[..])) - net.room) + Gain(old(net.room), net.room, bad && side == Tester)
    {
      ghost var was := conns[..];
      assert !conns[i].over by { OversAt(was); }
      bad := SendOnce(net, i, data);
      AddTurn(turns, conns.Length, gradual, was, start, i, conns[..]);
      turns := turns + [Turn(Overs(was), start, i)];
    }

    /** The balance of turns against failures and bytes taken. */
    ghost function Balance(net: Net): int
      reads this, conns, net`room
    {
      |turns| + net.room - Sum(Fails(conns[..]))
    }

    /** One turn and the processing of events after it. */
    method Iterate(net: Net, gradual: bool, next: nat, data: seq<Byte>) returns (stop: bool, end: End, next': nat)
      requires Running(net, gradual, next) && data != [] && AllExpected(net.sends, side) && !net.eventsFailed
      modifies this`turns, conns, net
      ensures Running(net, gradual, next')
      ensures net.room + Sum(Lengths(conns[..])) == old(net.room + Sum(Lengths(conns[..])))
      ensures Balance(net) <= old(Balance(net)) + if stop && end == UnexpectedErrno then 1 else 0
      ensures stop && end == Finished ==> AllOver(Overs(conns[..]))
      ensures if stop && end == UnexpectedErrno then EndsUnexpected(net.sends, side) else AllExpected(net.sends, side)
      ensures net.eventsFailed <==> stop && end == EventsFailed
      ensures !stop ==> |turns| > |old(turns)|
    {
      var done, bad;
      ghost var before := net.sends;
      done, bad, next' := TakeTurn(net, gradual, next, data);
      if done {
        return true, Finished, next';
      }
      ExpectedOn(before, net.sends, side);
      if bad {
        return true, UnexpectedErrno, next';
      }
      var rc := net.ProcessEvents();
      return rc < 0, EventsFailed, next';
    }

    /** Overfill everything. With gradual the search goes on behind the connection used last,
        otherwise it starts at the first one each time. */
    method Run(net: Net, gradual: bool, maxLen: nat) returns (end: End)
      requires maxLen > 0 && |net.accepted| == conns.Length && turns == [] && net.sends == []
      requires forall i :: 0 <= i < conns.Length ==> conns[i] == Conn(net.accepted[i], false, 0)
      requires !net.eventsFailed
      modifies this`turns, conns, net
      ensures |net.accepted| == conns.Length && forall i :: 0 <= i < conns.Length ==> conns[i].sent == net.accepted[i]
      ensures forall i :: 0 <= i < conns.Length ==> ConnCounts(conns[i], i, net.sends, side)
      ensures Schedule(turns, conns.Length, gradual)
      ensures |net.sends| == |turns| && forall k :: 0 <= k < |turns| ==> net.sends[k].i == turns[k].sel
      ensures net.room + Sum(Lengths(conns[..])) == old(net.room + Sum(Lengths(conns[..])))
      ensures |turns| <= old(net.room) - net.room + Sum(Fails(conns[..])) + if end == UnexpectedErrno then 1 else 0
      ensures end == Finished ==> forall i :: 0 <= i < conns.Length ==> conns[i].over
      ensures end == UnexpectedErrno <==>
              net.sends != [] && net.sends[|net.sends| - 1].errno in (if side == Zocket then {Other} else {NoMem, Other})
      ensures forall k :: 0 <= k < |net.sends| - 1 ==>
                net.sends[k].errno in (if side == Zocket then {Fine, Again, NoMem} else {Fine, Again})
      ensures end == EventsFailed <==> net.eventsFailed
    {
      end := Loop(net, gradual, maxLen);
      ConnsAre(conns[..], net.accepted, net.sends, side);
      ErrnosAre(net.sends, side);
    }

    /** The loop of the test. */
    method Loop(net: Net, gradual: bool, maxLen: nat) returns (end: End)
      requires maxLen > 0 && |net.accepted| == conns.Length && turns == [] && net.sends == [] && !net.eventsFailed
      requires forall i :: 0 <= i < conns.Length ==> conns[i] == Conn(net.accepted[i], false, 0)
      modifies this`turns, conns, net
      ensures Recorded(conns[..], net.accepted, net.sends, side) && Counted(conns[..], Limit(side))
      ensures Schedule(turns, conns.Length, gradual) && SentInTurns(net.sends, turns)
      ensures net.room + Sum(Lengths(conns[..])) == old(net.room + Sum(Lengths(conns[..])))
      ensures Balance(net) <= old(net.room) + if end == UnexpectedErrno then 1 else 0
      ensures end == Finished ==> AllOver(Overs(conns[..]))
      ensures if end == UnexpectedErrno then EndsUnexpected(net.sends, side) else AllExpected(net.sends, side)
      ensures net.eventsFailed <==> end == EventsFailed
    {
      var next: nat := 0;
      ghost var cap := conns.Length * Limit(side) + net.room;
      SumConst(Fails(conns[..]), 0);
      while true
        invariant Running(net, gradual, next) && AllExpected(net.sends, side) && !net.eventsFailed
        invariant net.room + Sum(Lengths(conns[..])) == old(net.room + Sum(Lengths(conns[..])))
        invariant Balance(net) <= old(net.room)
        decreases cap - |turns|
      {
        var data: seq<Byte> :| 1 <= |data| <= maxLen by { assert 1 <= |[0 as Byte]| <= maxLen; }
        var stop;
        stop, end, next := Iterate(net, gradual, next, data);
        FailsBounded(conns[..], Limit(side));
        if stop {
          return;
        }
      }
    }
  }

  lemma ExpectedOn(before: seq<Sent>, sends: seq<Sent>, side: Side)
    requires AllExpected(before, side) && before < sends && |sends| == |before| + 1
    ensures if Unexpected(side, sends[|before|].errno) then EndsUnexpected(sends, side) else AllExpected(sends, side)
  {
    assert sends[..|sends| - 1] == before;
    assert forall k :: 0 <= k < |before| ==> sends[k] == before[k];
  }

  /** What the connections hold and count, in full. */
  lemma ConnsAre(conns: seq<Conn>, accepted: seq<seq<Byte>>, sends: seq<Sent>, side: Side)
    requires Recorded(conns, accepted, sends, side) && Counted(conns, Limit(side))
    ensures forall i :: 0 <= i < |conns| ==> conns[i].sent == accepted[i] && ConnCounts(conns[i], i, sends, side)
    ensures AllOver(Overs(conns)) ==> forall i :: 0 <= i < |conns| ==> conns[i].over
  {
    OversAt(conns);
  }

  /** Only the last send failed in a way the test does not expect. */
  ghost predicate EndsUnexpected(sends: seq<Sent>, side: Side) {
    && sends != [] && Unexpected(side, sends[|sends| - 1].errno)
    && AllExpected(sends[..|sends| - 1], side)
  }

  /** Which errnos these are: from a zocket EAGAIN and ENOMEM are expected, from Tester only EAGAIN. */
  lemma ErrnosAre(sends: seq<Sent>, side: Side)
    ensures var expected := if side == Zocket then {Fine, Again, NoMem} else {Fine, Again};
            && (AllExpected(sends, side) ==> forall k :: 0 <= k < |sends| ==> sends[k].errno in expected)
            && (EndsUnexpected(sends, side) ==>
                  && sends[|sends| - 1].errno !in expected
                  && forall k :: 0 <= k < |sends| - 1 ==> sends[k].errno in expected)
  {
    if EndsUnexpected(sends, side) {
      forall k | 0 <= k < |sends| - 1
        ensures !Unexpected(side, sends[k].errno)
      {
        assert sends[..|sends| - 1][k] == sends[k];
      }
    }
  }

  /** What a send changes in the balance of failures and room: a failure that counts, or the bytes taken. */
  function Gain(before: nat, after: nat, ignored: bool): int {
    if after < before then before - after else if ignored then 0 else 1
  }

  /** How the state of the loop goes on from the last turn. */
  ghost predicate FollowsOn(turns: seq<Turn>, n: nat, gradual: bool, over: seq<bool>, next: nat) {
    && |over| == n
    && (turns == [] ==> gradual ==> next == 0)
    && (turns != [] ==> Follows(turns[|turns| - 1], Turn(over, if gradual then next else 0, 0), n, gradual))
  }

  lemma OversAt(conns: seq<Conn>)
    ensures forall k :: 0 <= k < |conns| ==> Overs(conns)[k] == conns[k].over
  {
  }

  lemma AddTurn(turns: seq<Turn>, n: nat, gradual: bool, was: seq<Conn>, next: nat, sel: nat, conns: seq<Conn>)
    requires Schedule(turns, n, gradual) && FollowsOn(turns, n, gradual, Overs(was), next) && (!gradual ==> next == 0)
    requires next < n && FirstFrom(Overs(was), next, sel)
    requires |conns| == |was| && forall i :: 0 <= i < |was| && i != sel ==> conns[i] == was[i]
    ensures var now := turns + [Turn(Overs(was), next, sel)];
            Schedule(now, n, gradual) && FollowsOn(now, n, gradual, Overs(conns), Succ(sel, n))
  {
    var now := turns + [Turn(Overs(was), next, sel)];
    forall k | 0 <= k < |now|
      ensures TurnOk(now, k, n, gradual)
    {
      assert k < |turns| ==> TurnOk(turns, k, n, gradual) && now[k] == turns[k];
      assert k > 0 ==> now[k - 1] == turns[k - 1];
    }
    OversAt(was);
    OversAt(conns);
  }

  lemma OneChanged(was: seq<Conn>, now: seq<Conn>, i: nat)
    requires i < |was| == |now| && forall k :: 0 <= k < |was| && k != i ==> now[k] == was[k]
    ensures Sum(Lengths(now)) == Sum(Lengths(was)) - |was[i].sent| + |now[i].sent|
    ensures Sum(Fails(now)) == Sum(Fails(was)) - was[i].fails + now[i].fails
    ensures forall k :: 0 <= k < |was| && k != i ==> Overs(now)[k] == Overs(was)[k]
  {
    SumUpdate(Lengths(was), i, |now[i].sent|);
    SumUpdate(Fails(was), i, now[i].fails);
    assert Lengths(now) == Lengths(was)[i := |now[i].sent|];
    assert Fails(now) == Fails(was)[i := now[i].fails];
  }

  lemma {:induction false} FailsBounded(conns: seq<Conn>, limit: nat)
    requires Counted(conns, limit)
    ensures Sum(Fails(conns)) <= |conns| * limit
  {
    if conns != [] {
      var n := |conns| - 1;
      FailsBounded(conns[..n], limit);
      assert Fails(conns)[..n] == Fails(conns[..n]);
      assert (n + 1) * limit == n * limit + limit;
    }
  }
}
