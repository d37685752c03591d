/** zfts_mzockets_check_events(): collect events over repeated zf_muxer_wait() calls and decide
    whether they are exactly the expected ones. */
module EventChecker {
  import opened Basics

  datatype Evt = In | Out | Err | Hup | Bit(n: nat)
  type Mask = set<Evt>

  datatype Event = Event(zocket: nat, events: Mask)
  datatype MZocket = MZocket(zocket: nat, inMset: bool, exp: Mask)

  /** ZFTS_DEF_MUXER_EVTS_NUM */
  const MAX_EVTS := 100

  ghost predicate DistinctZockets(mz: seq<MZocket>) {
    forall i, j :: 0 <= i < j < |mz| ==> mz[i].zocket != mz[j].zocket
  }

  /** The entry the first pass finds for its zocket. */
  ghost predicate IsFirst(mz: seq<MZocket>, j: nat) {
    j < |mz| && forall i :: 0 <= i < j ==> mz[i].zocket != mz[j].zocket
  }

  function Entry(z: nat, exp: Mask): MZocket { MZocket(z, true, exp) }

  predicate Counts(m: MZocket) { m.exp != {} && m.inMset }

  /** The events the checker must see: zockets in the set, each with its nonempty expected mask. If a zocket
      has several entries, the first one counts. */
  ghost function Expected(mz: seq<MZocket>): set<Event> {
    set j | 0 <= j < |mz| && IsFirst(mz, j) && Counts(mz[j]) :: Event(mz[j].zocket, mz[j].exp)
  }

  /** No later entry of a zocket asks for events when the first one does not. */
  ghost predicate Consistent(mz: seq<MZocket>) {
    forall k :: 0 <= k < |mz| && Counts(mz[k]) ==> FirstCounts(mz, mz[k].zocket)
  }

  ghost predicate FirstCounts(mz: seq<MZocket>, z: nat) {
    exists j :: 0 <= j < |mz| && IsFirst(mz, j) && mz[j].zocket == z && Counts(mz[j])
  }

  ghost function Reported(evts: seq<Event>): set<Event> {
    set i | 0 <= i < |evts| :: evts[i]
  }

  /** No zocket is reported twice. */
  ghost predicate NoRepeats(evts: seq<Event>) {
    forall i, j :: 0 <= i < j < |evts| ==> evts[i].zocket != evts[j].zocket
  }

  ghost predicate NonEmptyMasks(evts: seq<Event>) {
    forall i :: 0 <= i < |evts| ==> evts[i].events != {}
  }

  /** NoEvents is the FALSE return; the others but Passed end the test. */
  datatype Verdict =
    | Passed | NoEvents
    | WaitFailed | WaitTooBig | WaitReturnedZero | Repeated | Mismatch | NoDescription

  /** The event carries exactly the mask expected of its zocket, which is in the set. */
  ghost predicate Known(mz: seq<MZocket>, e: Event) {
    exists j :: 0 <= j < |mz| && IsFirst(mz, j) && mz[j] == MZocket(e.zocket, true, e.events)
  }

  /** An expected zocket that no event mentions. */
  ghost predicate Missing(m: MZocket, evts: seq<Event>) {
    Counts(m) && forall i :: 0 <= i < |evts| ==> evts[i].zocket != m.zocket
  }

  /** What the first two passes let through. */
  ghost predicate Accepts(mz: seq<MZocket>, evts: seq<Event>) {
    && (forall i :: 0 <= i < |evts| ==> Known(mz, evts[i]))
    && (forall k :: 0 <= k < |mz| ==> !Missing(mz[k], evts))
  }

  /** The first pass for one event. */
  method CheckKnown(mz: array<MZocket>, e: Event) returns (known: bool)
    ensures known <==> Known(mz[..], e)
  {
    var j := 0;
    while j < mz.Length && mz[j].zocket != e.zocket
      invariant 0 <= j <= mz.Length
      invariant forall m :: 0 <= m < j ==> mz[m].zocket != e.zocket
    {
      j := j + 1;
    }
    ghost var table := mz[..];
    assert forall m :: 0 <= m < |table| && IsFirst(table, m) && table[m].zocket == e.zocket ==> m == j;
    if j >= mz.Length {
      return false;
    }
    assert IsFirst(table, j);
    return !(e.events != mz[j].exp || !mz[j].inMset);
  }

  /** The second pass for one zocket. */
  method CheckSeen(m: MZocket, evts: array<Event>, n: nat) returns (missing: bool)
    requires n <= evts.Length
    ensures missing <==> Missing(m, evts[..n])
  {
    if m.exp != {} && m.inMset {
      var i := 0;
      while i < n && m.zocket != evts[i].zocket
        invariant 0 <= i <= n
        invariant forall k :: 0 <= k < i ==> m.zocket != evts[k].zocket
      {
        i := i + 1;
      }
      assert i < n ==> evts[..n][i].zocket == m.zocket;
      return i >= n;
    }
    return false;
  }

  /** The third pass. */
  method CheckRepeats(evts: array<Event>, n: nat) returns (repeated: bool)
    requires n <= evts.Length
    ensures repeated <==> !NoRepeats(evts[..n])
  {
    var i := 0;
    while i < n
      invariant 0 <= i <= n
      invariant forall a, b :: 0 <= a < i && 0 <= b < n && a != b ==> evts[a].zocket != evts[b].zocket
    {
      var j := 0;
      while j < n
        invariant 0 <= j <= n
        invariant forall b :: 0 <= b < j && b != i ==> evts[i].zocket != evts[b].zocket
      {
        if evts[i].zocket == evts[j].zocket && i != j {
          ghost var a, b := if i < j then i else j, if i < j then j else i;
          assert evts[..n][a].zocket == evts[..n][b].zocket;
          return true;
        }
        j := j + 1;
      }
      i := i + 1;
    }
    return false;
  }

  /** The three passes over collected events. */
  method Match(mz: array<MZocket>, evts: array<Event>, n: nat) returns (v: Verdict)
    requires n <= evts.Length
    ensures v == if !NoRepeats(evts[..n]) then Repeated
                 else if Accepts(mz[..], evts[..n]) then Passed else Mismatch
  {
    var failed := false;
    for i := 0 to n
      invariant failed <==> exists k :: 0 <= k < i && !Known(mz[..], evts[k])
    {
      var known := CheckKnown(mz, evts[i]);
      if !known {
        failed := true;
      }
    }
    ghost var extra := failed;
    for j := 0 to mz.Length
      invariant failed <==> extra || exists k :: 0 <= k < j && Missing(mz[k], evts[..n])
    {
      var missing := CheckSeen(mz[j], evts, n);
      if missing {
        failed := true;
      }
    }
    var repeated := CheckRepeats(evts, n);
    if repeated {
      return Repeated;
    }
    return if failed then Mismatch else Passed;
  }

  /** What acceptance means, for every table: the reports are the expected events, as sets, and the entries
      of each zocket agree on whether it is expected, exactly when no report has an empty mask. */
  lemma AcceptanceMeans(mz: seq<MZocket>, evts: seq<Event>)
    ensures Reported(evts) == Expected(mz) && Consistent(mz) <==> Accepts(mz, evts) && NonEmptyMasks(evts)
  {
    if Reported(evts) == Expected(mz) && Consistent(mz) {
      SetsEqualAccepted(mz, evts);
    }
    if Accepts(mz, evts) && NonEmptyMasks(evts) {
      AcceptedSetsEqual(mz, evts);
    }
  }

  lemma SetsEqualAccepted(mz: seq<MZocket>, evts: seq<Event>)
    requires Reported(evts) == Expected(mz) && Consistent(mz)
    ensures Accepts(mz, evts) && NonEmptyMasks(evts)
  {
    forall i | 0 <= i < |evts|
      ensures Known(mz, evts[i]) && evts[i].events != {}
    {
      assert evts[i] in Reported(evts);
      var j :| 0 <= j < |mz| && IsFirst(mz, j) && Counts(mz[j]) && evts[i] == Event(mz[j].zocket, mz[j].exp);
      assert mz[j] == MZocket(evts[i].zocket, true, evts[i].events);
    }
    forall k | 0 <= k < |mz| && Counts(mz[k])
      ensures !Missing(mz[k], evts)
    {
      var j :| 0 <= j < |mz| && IsFirst(mz, j) && mz[j].zocket == mz[k].zocket && Counts(mz[j]);
      assert Event(mz[j].zocket, mz[j].exp) in Reported(evts);
    }
  }

  lemma AcceptedSetsEqual(mz: seq<MZocket>, evts: seq<Event>)
    requires Accepts(mz, evts) && NonEmptyMasks(evts)
    ensures Reported(evts) == Expected(mz) && Consistent(mz)
  {
    forall k | 0 <= k < |mz| && Counts(mz[k])
      ensures FirstCounts(mz, mz[k].zocket)
      ensures IsFirst(mz, k) ==> Event(mz[k].zocket, mz[k].exp) in Reported(evts)
    {
      NotMissing(mz, evts, k);
    }
    forall e | e in Reported(evts)
      ensures e in Expected(mz)
    {
      var i :| 0 <= i < |evts| && evts[i] == e;
      var j :| 0 <= j < |mz| && IsFirst(mz, j) && mz[j] == MZocket(e.zocket, true, e.events);
      assert e == Event(mz[j].zocket, mz[j].exp);
    }
  }

  lemma NotMissing(mz: seq<MZocket>, evts: seq<Event>, k: nat)
    requires k < |mz| && Counts(mz[k]) && Accepts(mz, evts) && NonEmptyMasks(evts)
    ensures FirstCounts(mz, mz[k].zocket)
    ensures IsFirst(mz, k) ==> Event(mz[k].zocket, mz[k].exp) in Reported(evts)
  {
    assert !Missing(mz[k], evts);
    var i :| 0 <= i < |evts| && evts[i].zocket == mz[k].zocket;
    var m :| 0 <= m < |mz| && IsFirst(mz, m) && mz[m] == MZocket(evts[i].zocket, true, evts[i].events);
    assert evts[i] in Reported(evts);
    assert IsFirst(mz, k) ==> m == k;
  }

  /** The condition on masks is needed: an empty report for a zocket that expects nothing is accepted. */
  lemma EmptyReportAccepted()
    ensures var mz, evts := [MZocket(1, true, {})], [Event(1, {})];
            Accepts(mz, evts) && NoRepeats(evts) && Reported(evts) != Expected(mz)
  {
    var mz, evts := [MZocket(1, true, {})], [Event(1, {})];
    assert IsFirst(mz, 0) && mz[0] == MZocket(1, true, evts[0].events);
    assert evts[0] in Reported(evts);
  }

  /** How many entries the checker waits for. */
  function CountExpected(mz: seq<MZocket>): nat {
    if mz == [] then 0
    else CountExpected(mz[..|mz| - 1]) + (if mz[|mz| - 1].exp != {} && mz[|mz| - 1].inMset then 1 else 0)
  }

  /** Every entry that asks for events is the first one of its zocket. */
  ghost predicate EachFirst(mz: seq<MZocket>) {
    forall k :: 0 <= k < |mz| && Counts(mz[k]) ==> IsFirst(mz, k)
  }

  lemma DistinctEachFirst(mz: seq<MZocket>)
    requires DistinctZockets(mz)
    ensures EachFirst(mz)
  {
    forall k | 0 <= k < |mz| && Counts(mz[k])
      ensures IsFirst(mz, k)
    {
    }
  }

  /** Then the entries are consistent. */
  lemma FirstConsistent(mz: seq<MZocket>)
    requires EachFirst(mz)
    ensures Consistent(mz)
  {
    forall k | 0 <= k < |mz| && Counts(mz[k])
      ensures FirstCounts(mz, mz[k].zocket)
    {
      assert IsFirst(mz, k);
    }
  }

  lemma FirstInFront(front: seq<MZocket>, last: MZocket, k: nat)
    requires k < |front|
    ensures IsFirst(front + [last], k) <==> IsFirst(front, k)
  {
    var mz := front + [last];
    assert forall i :: 0 <= i < |front| ==> mz[i] == front[i];
    if IsFirst(mz, k) {
      forall i | 0 <= i < k
        ensures front[i].zocket != front[k].zocket
      {
        assert mz[i].zocket != mz[k].zocket;
      }
    }
  }

  /** One entry more. */
  lemma ExpectedGrows(front: seq<MZocket>, last: MZocket)
    ensures var mz, e := front + [last], Event(last.zocket, last.exp);
            var more := IsFirst(mz, |front|) && Counts(last);
            && Expected(mz) == Expected(front) + (if more then {e} else {})
            && (more ==> forall x :: x in Expected(front) ==> x.zocket != last.zocket)
  {
    var mz, e := front + [last], Event(last.zocket, last.exp);
    var n := |front|;
    assert mz[n] == last && forall k :: 0 <= k < n ==> mz[k] == front[k];
    forall x | x in Expected(front)
      ensures x in Expected(mz) && (IsFirst(mz, n) ==> x.zocket != last.zocket)
    {
      var j :| 0 <= j < n && IsFirst(front, j) && Counts(front[j]) && x == Event(front[j].zocket, front[j].exp);
      FirstInFront(front, last, j);
      assert mz[j] == front[j];
    }
    forall x | x in Expected(mz)
      ensures x in Expected(front) || (IsFirst(mz, n) && Counts(last) && x == e)
    {
      var j :| 0 <= j < |mz| && IsFirst(mz, j) && Counts(mz[j]) && x == Event(mz[j].zocket, mz[j].exp);
      if j < n {
        FirstInFront(front, last, j);
        assert front[j] == mz[j];
      }
    }
  }

  lemma EachFirstGrows(front: seq<MZocket>, last: MZocket)
    ensures var mz := front + [last];
            EachFirst(mz) <==> EachFirst(front) && (Counts(last) ==> IsFirst(mz, |front|))
  {
    var mz := front + [last];
    assert mz[|front|] == last && forall k :: 0 <= k < |front| ==> mz[k] == front[k];
    forall k | 0 <= k < |front|
      ensures IsFirst(mz, k) <==> IsFirst(front, k)
    {
      FirstInFront(front, last, k);
    }
    if EachFirst(mz) {
      forall k | 0 <= k < |front| && Counts(front[k])
        ensures IsFirst(front, k)
      {
        assert Counts(mz[k]);
      }
    }
  }

  /** The checker waits for at least as many events as there are expected ones, and for just as many exactly
      when every entry that asks for events is the first one of its zocket. */
  lemma {:induction false} CountIsCardinality(mz: seq<MZocket>)
    ensures |Expected(mz)| <= CountExpected(mz)
    ensures CountExpected(mz) == |Expected(mz)| <==> EachFirst(mz)
  {
    if mz != [] {
      var n := |mz| - 1;
      var e := Event(mz[n].zocket, mz[n].exp);
      assert mz == mz[..n] + [mz[n]];
      CountIsCardinality(mz[..n]);
      ExpectedGrows(mz[..n], mz[n]);
      EachFirstGrows(mz[..n], mz[n]);
      assert IsFirst(mz, n) && Counts(mz[n]) ==> e !in Expected(mz[..n]);
    }
  }

  /** The expected events can be reported, each zocket once. */
  lemma {:induction false} ReportExpected(mz: seq<MZocket>) returns (evts: seq<Event>)
    ensures NoRepeats(evts) && NonEmptyMasks(evts) && Reported(evts) == Expected(mz)
  {
    if mz == [] {
      evts := [];
    } else {
      var n := |mz| - 1;
      assert mz == mz[..n] + [mz[n]];
      evts := ReportExpected(mz[..n]);
      ExpectedGrows(mz[..n], mz[n]);
      if IsFirst(mz, n) && Counts(mz[n]) {
        assert forall i :: 0 <= i < |evts| ==> evts[i] in Reported(evts);
        ReportMore(evts, Event(mz[n].zocket, mz[n].exp));
        evts := evts + [Event(mz[n].zocket, mz[n].exp)];
      }
    }
  }

  lemma ReportMore(evts: seq<Event>, e: Event)
    ensures Reported(evts + [e]) == Reported(evts) + {e}
  {
    var more := evts + [e];
    assert more[|evts|] == e && forall i :: 0 <= i < |evts| ==> more[i] == evts[i];
  }

  lemma {:induction false} ReportsAreDistinct(evts: seq<Event>)
    requires NoRepeats(evts)
    ensures |Reported(evts)| == |evts|
  {
    if evts != [] {
      var n := |evts| - 1;
      assert forall k :: 0 <= k < n ==> evts[..n][k] == evts[k];
      ReportsAreDistinct(evts[..n]);
      assert Reported(evts) == Reported(evts[..n]) + {evts[n]};
      assert evts[n] !in Reported(evts[..n]);
    }
  }

  /** Acceptance is a bijection: as many reports as entries waited for, no more and no fewer, exactly when
      each of these entries is the first one of its zocket. */
  lemma AcceptedCount(mz: seq<MZocket>, evts: seq<Event>)
    requires NoRepeats(evts) && Reported(evts) == Expected(mz)
    ensures |evts| == |Expected(mz)| <= CountExpected(mz)
    ensures |evts| == CountExpected(mz) <==> EachFirst(mz)
  {
    CountIsCardinality(mz);
    ReportsAreDistinct(evts);
  }

  // ---------------------------------------------------------------- waiting

  /** One zf_muxer_wait() call: its timeout, the time spent in waits before it, what it returned, and how
      long it took. */
  datatype WaitCall = WaitCall(timeout: int, from: nat, rc: int, took: nat)

  /** The muxer set under test. It may report anything, but a wait never reports more events than
      it was given slots, and never an event with an empty mask. */
  class Muxer {
    ghost var reported: seq<Event>   // everything reported by successful waits
    ghost var waits: seq<WaitCall>
    ghost var spent: nat             // the time spent in waits

    method Wait(buf: array<Event>, off: nat, timeout: int) returns (rc: int, duration: nat)
      requires off <= buf.Length
      modifies this, buf
      ensures rc <= buf.Length - off
      ensures buf[..off] == old(buf[..off])
      ensures rc >= 0 ==> reported == old(reported) + buf[off..off + rc] && NonEmptyMasks(buf[off..off + rc])
      ensures rc < 0 ==> reported == old(reported)
      ensures waits == old(waits) + [WaitCall(timeout, old(spent), rc, duration)] && spent == old(spent) + duration
    {
      var evts: seq<Event> := *;
      var time: int := *;
      rc, duration := *, if time < 0 then 0 else time;
      if 0 <= rc == |evts| <= buf.Length - off && forall e <- evts :: e.events != {} {
        forall i | 0 <= i < rc {
          buf[off + i] := evts[i];
        }
        reported := reported + buf[off..off + rc];
      } else {
        rc := -1;
      }
      waits, spent := waits + [WaitCall(timeout, spent, rc, duration)], spent + duration;
    }
  }

  /** The events the waits brought. */
  function Got(waits: seq<WaitCall>): nat {
    if waits == [] then 0
    else Got(waits[..|waits| - 1]) + if waits[|waits| - 1].rc > 0 then waits[|waits| - 1].rc else 0
  }

  /** Whether the loop goes on after these waits. */
  predicate GoesOn(waits: seq<WaitCall>, timeout: int, start: nat, expNum: nat)
    requires waits != []
  {
    var w := waits[|waits| - 1];
    w.rc > 0 && Got(waits) < expNum && !(w.from + w.took - start >= timeout && timeout > 0)
  }

  /** The timeout a wait is given. */
  function Remaining(timeout: int, start: nat, from: nat): int {
    if timeout < 0 then -1 else timeout - (from - start)
  }

  /** The waits of one check: each with what remains of the timeout, and after each but the last the loop
      goes on. */
  predicate Waited(waits: seq<WaitCall>, timeout: int, start: nat, expNum: nat) {
    && waits != []
    && var w, front := waits[|waits| - 1], waits[..|waits| - 1];
       && w.timeout == Remaining(timeout, start, w.from)
       && if front == [] then w.from == start
          else
            && Waited(front, timeout, start, expNum) && GoesOn(front, timeout, start, expNum)
            && w.from == front[|front| - 1].from + front[|front| - 1].took
  }

  lemma WaitedMore(waits: seq<WaitCall>, w: WaitCall, timeout: int, start: nat, expNum: nat)
    requires w.timeout == Remaining(timeout, start, w.from)
    requires if waits == [] then w.from == start
             else && Waited(waits, timeout, start, expNum) && GoesOn(waits, timeout, start, expNum)
                  && w.from == waits[|waits| - 1].from + waits[|waits| - 1].took
    ensures Waited(waits + [w], timeout, start, expNum)
    ensures Got(waits + [w]) == Got(waits) + if w.rc > 0 then w.rc else 0
  {
    assert (waits + [w])[..|waits|] == waits;
  }

  /** There are no more waits than expected events, unless none is expected. */
  lemma {:induction false} WaitsBounded(waits: seq<WaitCall>, timeout: int, start: nat, expNum: nat)
    requires Waited(waits, timeout, start, expNum)
    ensures |waits| <= Got(waits[..|waits| - 1]) + 1 && |waits| <= if expNum == 0 then 1 else expNum
  {
    var front := waits[..|waits| - 1];
    if front != [] {
      WaitsBounded(front, timeout, start, expNum);
    }
  }

  /** All waits end at the deadline of the whole check. Such a wait is given a negative timeout, which means
      to wait for ever, exactly when the whole timeout is 0 and time has passed. */
  lemma {:induction false} NegativeTimeout(waits: seq<WaitCall>, k: nat, timeout: int, start: nat, expNum: nat)
    requires Waited(waits, timeout, start, expNum) && k < |waits| && timeout >= 0
    ensures waits[k].from + waits[k].timeout == start + timeout
    ensures waits[k].timeout < 0 <==> timeout == 0 && waits[k].from > start
  {
    if k < |waits| - 1 {
      NegativeTimeout(waits[..|waits| - 1], k, timeout, start, expNum);
    }
  }

  /** And there are such waits: the first brings one of two events and takes 3 ms, and the second is given
      a timeout of -3. */
  lemma WaitsForEver() returns (waits: seq<WaitCall>)
    ensures Waited(waits, 0, 0, 2) && |waits| == 2 && waits[1].timeout == -3
  {
    waits := [WaitCall(0, 0, 1, 3)];
    assert waits[..0] == [];
    WaitedMore(waits, WaitCall(-3, 3, 1, 0), 0, 0, 2);
    waits := waits + [WaitCall(-3, 3, 1, 0)];
  }

  /** Why waiting ended after these waits; Passed says that there is something to compare. */
  ghost predicate Ended(v: Verdict, waits: seq<WaitCall>, timeout: int, start: nat, allowNoEvts: bool, expNum: nat)
    requires waits != []
  {
    var last, nothing := waits[|waits| - 1].rc, allowNoEvts && timeout >= 0 && Got(waits) == 0;
    match v
    case WaitFailed => last < 0
    case NoEvents => last == 0 < expNum && nothing
    case WaitReturnedZero => last == 0 < expNum && !nothing
    case Passed => last >= 0 && (last == 0 ==> expNum == 0) && !GoesOn(waits, timeout, start, expNum)
    case _ => false
  }

  /** One wait, into the slots behind the events that are there. */
  method WaitMore(mux: Muxer, got: array<Event>, evtsNum: nat, timeout: int, total: nat, ghost had: seq<Event>)
    returns (rc: int, duration: nat)
    requires evtsNum <= got.Length == MAX_EVTS && NonEmptyMasks(got[..evtsNum])
    requires mux.reported == had + got[..evtsNum]
    modifies mux, got
    ensures rc <= MAX_EVTS - evtsNum && mux.spent == old(mux.spent) + duration
    ensures var n := evtsNum + if rc > 0 then rc else 0; mux.reported == had + got[..n] && NonEmptyMasks(got[..n])
    ensures mux.waits ==
            old(mux.waits) + [WaitCall(if timeout < 0 then -1 else timeout - total, old(mux.spent), rc, duration)]
  {
    ghost var sofar := got[..evtsNum];
    rc, duration := mux.Wait(got, evtsNum, if timeout < 0 then -1 else timeout - total);
    if rc > 0 {
      MoreEvents(got[..], evtsNum, rc, sofar, had);
    }
  }

  lemma MoreEvents(got: seq<Event>, n: nat, rc: nat, sofar: seq<Event>, had: seq<Event>)
    requires n + rc <= |got| && sofar == got[..n] && NonEmptyMasks(sofar) && NonEmptyMasks(got[n..n + rc])
    ensures had + sofar + got[n..n + rc] == had + got[..n + rc] && NonEmptyMasks(got[..n + rc])
  {
    assert got[..n + rc] == sofar + got[n..n + rc];
  }

  /** One wait, recorded behind those made so far. */
  method WaitOnce(mux: Muxer, got: array<Event>, evtsNum: nat, timeout: int, total: nat, ghost expNum: nat,
                  ghost had: seq<Event>, ghost asked: seq<WaitCall>, ghost start: nat)
    returns (rc: int, duration: nat, ghost more: seq<WaitCall>)
    requires evtsNum <= got.Length == MAX_EVTS && NonEmptyMasks(got[..evtsNum])
    requires mux.reported == had + got[..evtsNum] && total == mux.spent - start
    requires if asked == [] then total == 0
             else && Waited(asked, timeout, start, expNum) && GoesOn(asked, timeout, start, expNum)
                  && asked[|asked| - 1].from + asked[|asked| - 1].took == start + total
    modifies mux, got
    ensures rc <= MAX_EVTS - evtsNum && mux.spent == old(mux.spent) + duration
    ensures var n := evtsNum + if rc > 0 then rc else 0; mux.reported == had + got[..n] && NonEmptyMasks(got[..n])
    ensures Waited(more, timeout, start, expNum) && Got(more) == Got(asked) + if rc > 0 then rc else 0
    ensures |more| == |asked| + 1 && more[|asked|].rc == rc && more[|asked|].from + more[|asked|].took == start + total + duration
    ensures asked <= more && mux.waits == old(mux.waits) + [more[|asked|]]
  {
    rc, duration := WaitMore(mux, got, evtsNum, timeout, total, had);
    ghost var w := WaitCall(if timeout < 0 then -1 else timeout - total, start + total, rc, duration);
    WaitedMore(asked, w, timeout, start, expNum);
    more := asked + [w];
  }

  /** The waiting loop. */
  method Collect(mux: Muxer, got: array<Event>, timeout: int, allowNoEvts: bool, expNum: nat)
    returns (v: Verdict, evtsNum: nat, ghost asked: seq<WaitCall>)
    requires got.Length == MAX_EVTS
    modifies mux, got
    ensures evtsNum <= MAX_EVTS && NonEmptyMasks(got[..evtsNum])
    ensures mux.reported == old(mux.reported) + got[..evtsNum] && mux.waits == old(mux.waits) + asked
    ensures Waited(asked, timeout, old(mux.spent), expNum) && evtsNum == Got(asked)
    ensures Ended(v, asked, timeout, old(mux.spent), allowNoEvts, expNum)
  {
    ghost var had, start := mux.reported, mux.spent;
    asked := [];
    var total, first := 0, true;
    evtsNum := 0;
    while first || evtsNum < expNum
      invariant 0 <= evtsNum <= MAX_EVTS && 0 <= total == mux.spent - start && evtsNum == Got(asked)
      invariant mux.reported == had + got[..evtsNum] && mux.waits == old(mux.waits) + asked
      invariant NonEmptyMasks(got[..evtsNum])
      invariant first ==> total == 0 && asked == []
      invariant !first ==> Waited(asked, timeout, start, expNum) && Between(asked, total, timeout, start, expNum)
      decreases first, expNum - evtsNum
    {
      var rc, duration, more := WaitOnce(mux, got, evtsNum, timeout, total, expNum, had, asked, start);
      assert old(mux.waits) + asked + [more[|asked|]] == old(mux.waits) + more;
      first, asked := false, more;
      if rc < 0 {
        return WaitFailed, evtsNum, asked;
      } else if rc > MAX_EVTS {
        assert false;
        return WaitTooBig, evtsNum, asked;
      }
      if rc == 0 && expNum != 0 {
        if allowNoEvts && timeout >= 0 && evtsNum == 0 {
          return NoEvents, evtsNum, asked;
        }
        return WaitReturnedZero, evtsNum, asked;
      } else {
        evtsNum := evtsNum + rc;
        total := total + duration;
        if total >= timeout && timeout > 0 {
          break;
        }
      }
    }
    return Passed, evtsNum, asked;
  }

  /** Between two waits, when there is time left. */
  ghost predicate Between(asked: seq<WaitCall>, total: int, timeout: int, start: nat, expNum: nat)
    requires asked != []
  {
    var w := asked[|asked| - 1];
    && w.rc >= 0 && (w.rc == 0 ==> expNum == 0)
    && w.from + w.took - start == total && !(total >= timeout && timeout > 0)
  }

  // ---------------------------------------------------------------- the whole check

  /** What the check says about the reported events evts, for every table. */
  ghost predicate Judged(v: Verdict, evts: seq<Event>, expected: set<Event>, consistent: bool) {
    match v
    case Passed => NoRepeats(evts) && Reported(evts) == expected && consistent && |evts| == |expected|
    case Repeated => !NoRepeats(evts)
    case Mismatch => NoRepeats(evts) && !(Reported(evts) == expected && consistent)
    case _ => true
  }

  /** Waiting ended for the reason v gives, if it is one; otherwise there was something to compare. */
  ghost predicate EndedFor(v: Verdict, waits: seq<WaitCall>, timeout: int, start: nat, allowNoEvts: bool, expNum: nat)
    requires waits != []
  {
    Ended(if v in {Repeated, Mismatch} then Passed else v, waits, timeout, start, allowNoEvts, expNum)
  }

  /** What can come of a check of the table mz: the verdict, the reports and the waits that brought them. */
  ghost predicate Outcome(v: Verdict, mz: seq<MZocket>, evts: seq<Event>, waits: seq<WaitCall>,
                          timeout: int, start: nat, allowNoEvts: bool) {
    && Waited(waits, timeout, start, CountExpected(mz))
    && |evts| == Got(waits) <= MAX_EVTS && NonEmptyMasks(evts)
    && Judged(v, evts, Expected(mz), Consistent(mz))
    && EndedFor(v, waits, timeout, start, allowNoEvts, CountExpected(mz))
  }

  /** The check passes exactly when no wait failed and the reports are the expected events, no zocket twice. */
  ghost predicate PassesIfEqual(v: Verdict, evts: seq<Event>, waits: seq<WaitCall>, expected: set<Event>)
    requires waits != []
  {
    v == Passed <==> waits[|waits| - 1].rc >= 0 && NoRepeats(evts) && Reported(evts) == expected
  }

  /** No wait is given up early: each begins when the one before ended, and is given what is then left until the
      deadline, or no limit at all; and after every wait but the last there were events, fewer than are waited
      for, and the deadline had not come. */
  lemma {:induction false} WaitsInOrder(waits: seq<WaitCall>, k: nat, timeout: int, start: nat, expNum: nat)
    requires Waited(waits, timeout, start, expNum) && k < |waits|
    ensures waits[k].from == if k == 0 then start else waits[k - 1].from + waits[k - 1].took
    ensures waits[k].timeout == if timeout < 0 then -1 else start + timeout - waits[k].from
    ensures k < |waits| - 1 ==>
              && waits[k].rc > 0 && Got(waits[..k + 1]) < expNum
              && (timeout > 0 ==> waits[k].from + waits[k].took < start + timeout)
  {
    var front := waits[..|waits| - 1];
    if k < |waits| - 1 {
      WaitsInOrder(front, k, timeout, start, expNum);
      assert front[..k + 1] == waits[..k + 1];
      assert k == |front| - 1 ==> front[..k + 1] == front;
    }
  }

  /** Waiting with events missing ends in a comparison only when the deadline has come. */
  lemma WaitsUntilDeadline(v: Verdict, mz: seq<MZocket>, evts: seq<Event>, waits: seq<WaitCall>,
                           timeout: int, start: nat, allowNoEvts: bool)
    requires Outcome(v, mz, evts, waits, timeout, start, allowNoEvts) && v in {Passed, Repeated, Mismatch}
    requires |evts| < CountExpected(mz)
    ensures var last := waits[|waits| - 1];
            last.rc > 0 && timeout > 0 && last.from + last.took >= start + timeout
  {
  }

  /** The verdict follows from the waits and the reports. */
  lemma VerdictIs(v: Verdict, mz: seq<MZocket>, evts: seq<Event>, waits: seq<WaitCall>,
                  timeout: int, start: nat, allowNoEvts: bool)
    requires Outcome(v, mz, evts, waits, timeout, start, allowNoEvts)
    ensures var last, expNum := waits[|waits| - 1].rc, CountExpected(mz);
            v == if last < 0 then WaitFailed
                 else if last == 0 && expNum > 0 then
                   if evts == [] && allowNoEvts && timeout >= 0 then NoEvents else WaitReturnedZero
                 else if !NoRepeats(evts) then Repeated
                 else if Reported(evts) == Expected(mz) && Consistent(mz) then Passed
                 else Mismatch
  {
  }

  /** While the loop goes on there are fewer events than it waits for. */
  lemma GotBeforeLast(waits: seq<WaitCall>, timeout: int, start: nat, expNum: nat)
    requires Waited(waits, timeout, start, expNum) && expNum > 0
    ensures Got(waits[..|waits| - 1]) < expNum
  {
  }

  /** It does when every entry that asks for events is the first one of its zocket. */
  lemma FirstPasses(v: Verdict, mz: seq<MZocket>, evts: seq<Event>, waits: seq<WaitCall>,
                    timeout: int, start: nat, allowNoEvts: bool)
    requires Outcome(v, mz, evts, waits, timeout, start, allowNoEvts) && EachFirst(mz)
    ensures PassesIfEqual(v, evts, waits, Expected(mz))
  {
    FirstConsistent(mz);
    if NoRepeats(evts) && Reported(evts) == Expected(mz) && CountExpected(mz) > 0 {
      AcceptedCount(mz, evts);
      GotBeforeLast(waits, timeout, start, CountExpected(mz));
    }
  }

  /** Otherwise the checker waits for more events than it can get: a wait that brings all of them, one that
      returns zero, and the check does not pass. */
  lemma WaitsInVain(mz: seq<MZocket>, timeout: int, start: nat, allowNoEvts: bool)
    returns (v: Verdict, evts: seq<Event>, waits: seq<WaitCall>)
    requires !EachFirst(mz) && |Expected(mz)| <= MAX_EVTS
    ensures Outcome(v, mz, evts, waits, timeout, start, allowNoEvts) && v in {NoEvents, WaitReturnedZero}
    ensures waits[|waits| - 1].rc == 0 && NoRepeats(evts) && Reported(evts) == Expected(mz)
  {
    evts := ReportExpected(mz);
    AcceptedCount(mz, evts);
    var n, expNum := |evts|, CountExpected(mz);
    var last := WaitCall(Remaining(timeout, start, start), start, 0, 0);
    waits := [];
    if n > 0 {
      waits := [WaitCall(Remaining(timeout, start, start), start, n, 0)];
      assert waits[..0] == [];
      assert GoesOn(waits, timeout, start, expNum);
    }
    WaitedMore(waits, last, timeout, start, expNum);
    waits := waits + [last];
    v := if allowNoEvts && timeout >= 0 && n == 0 then NoEvents else WaitReturnedZero;
  }

  /** For which tables the check does what it is for: in every outcome it passes exactly when no wait failed
      and the reports are the expected events, if and only if every entry that asks for events is the first
      one of its zocket (or more events are expected than the checker has slots for, and it never passes). */
  lemma PassesExactlyWhenEqual(mz: seq<MZocket>, timeout: int, start: nat, allowNoEvts: bool)
    ensures (forall v, evts, waits ::
               Outcome(v, mz, evts, waits, timeout, start, allowNoEvts) ==> PassesIfEqual(v, evts, waits, Expected(mz)))
            <==> EachFirst(mz) || |Expected(mz)| > MAX_EVTS
  {
    if EachFirst(mz) || |Expected(mz)| > MAX_EVTS {
      forall v, evts, waits | Outcome(v, mz, evts, waits, timeout, start, allowNoEvts)
        ensures PassesIfEqual(v, evts, waits, Expected(mz))
      {
        if EachFirst(mz) {
          FirstPasses(v, mz, evts, waits, timeout, start, allowNoEvts);
        } else if NoRepeats(evts) {
          ReportsAreDistinct(evts);
        }
      }
    } else {
      var v, evts, waits := WaitsInVain(mz, timeout, start, allowNoEvts);
      assert !PassesIfEqual(v, evts, waits, Expected(mz));
    }
  }

  method CheckEvents(mux: Muxer, mz: array<MZocket>, timeout: int, allowNoEvts: bool) returns (v: Verdict)
    modifies mux
    ensures old(mux.reported) <= mux.reported && old(mux.waits) <= mux.waits
    ensures var evts, waits := mux.reported[|old(mux.reported)|..], mux.waits[|old(mux.waits)|..];
            && Outcome(v, mz[..], evts, waits, timeout, old(mux.spent), allowNoEvts)
            && (EachFirst(mz[..]) ==> PassesIfEqual(v, evts, waits, Expected(mz[..])))
  {
    var got := new Event[MAX_EVTS];
    var expNum := 0;
    for i := 0 to mz.Length
      invariant expNum == CountExpected(mz[..i])
    {
      assert mz[..i + 1][..i] == mz[..i];
      expNum := expNum + if mz[i].exp != {} && mz[i].inMset then 1 else 0;
    }
    assert mz[..mz.Length] == mz[..];
    var evtsNum;
    ghost var asked;
    v, evtsNum, asked := Collect(mux, got, timeout, allowNoEvts, expNum);
    assert mux.waits[|old(mux.waits)|..] == asked;
    assert mux.reported[|old(mux.reported)|..] == got[..evtsNum];
    if v == Passed {
      v := Match(mz, got, evtsNum);
      AcceptanceMeans(mz[..], got[..evtsNum]);
      if v == Passed {
        ReportsAreDistinct(got[..evtsNum]);
      }
    }
    assert Outcome(v, mz[..], got[..evtsNum], asked, timeout, old(mux.spent), allowNoEvts);
    if EachFirst(mz[..]) {
      FirstPasses(v, mz[..], got[..evtsNum], asked, timeout, old(mux.spent), allowNoEvts);
    }
  }

  // ---------------------------------------------------------------- zfts_check_muxer_events()

  ghost predicate IsFirstEvent(exp: seq<Event>, j: nat) {
    j < |exp| && forall i :: 0 <= i < j ==> exp[i].zocket != exp[j].zocket
  }

  /** The events to see: those with a nonempty mask, of each zocket the first. */
  ghost function NonEmpty(exp: seq<Event>): set<Event> {
    set i | 0 <= i < |exp| && IsFirstEvent(exp, i) && exp[i].events != {} :: exp[i]
  }

  ghost predicate Described(exp: seq<Event>, zs: seq<nat>) {
    forall j :: 0 <= j < |exp| ==> exp[j].zocket in zs
  }

  /** The mask of the first event for z. */
  function FirstMask(exp: seq<Event>, z: nat): Mask {
    if exp == [] then {} else if exp[0].zocket == z then exp[0].events else FirstMask(exp[1..], z)
  }

  lemma {:induction false} FirstMaskIs(exp: seq<Event>, z: nat, j: nat)
    requires IsFirstEvent(exp, j) && exp[j].zocket == z
    ensures FirstMask(exp, z) == exp[j].events
  {
    if j > 0 {
      assert forall i :: 0 <= i < j ==> exp[1..][i] == exp[i + 1];
      assert exp[0].zocket != z;
      FirstMaskIs(exp[1..], z, j - 1);
    }
  }

  lemma {:induction false} FirstMaskWhere(exp: seq<Event>, z: nat) returns (j: nat)
    requires FirstMask(exp, z) != {}
    ensures IsFirstEvent(exp, j) && exp[j] == Event(z, FirstMask(exp, z))
  {
    if exp[0].zocket == z {
      j := 0;
    } else {
      var i := FirstMaskWhere(exp[1..], z);
      assert forall k :: 0 <= k < i ==> exp[k + 1] == exp[1..][k];
      j := i + 1;
    }
  }

  /** The table for described zockets; calloc()ed entries at its end are in no set. */
  function DescribedTable(exp: seq<Event>, zs: seq<nat>): (mz: seq<MZocket>)
    ensures |mz| == Max(|exp|, |zs|)
  {
    seq(Max(|exp|, |zs|), i requires 0 <= i => if i < |zs| then Entry(zs[i], FirstMask(exp, zs[i])) else MZocket(0, false, {}))
  }

  /** The table without descriptions. */
  function PlainTable(exp: seq<Event>): (mz: seq<MZocket>)
    ensures |mz| == |exp|
  {
    seq(|exp|, i requires 0 <= i < |exp| => Entry(exp[i].zocket, exp[i].events))
  }

  /** The table of described zockets expects exactly the given events and is consistent, however often a
      zocket is described or has events. */
  lemma DescribedExpects(exp: seq<Event>, zs: seq<nat>)
    requires Described(exp, zs)
    ensures Expected(DescribedTable(exp, zs)) == NonEmpty(exp) && Consistent(DescribedTable(exp, zs))
  {
    var mz := DescribedTable(exp, zs);
    forall e | e in Expected(mz)
      ensures e in NonEmpty(exp)
    {
      var i :| 0 <= i < |mz| && IsFirst(mz, i) && Counts(mz[i]) && e == Event(mz[i].zocket, mz[i].exp);
      var j := FirstMaskWhere(exp, zs[i]);
    }
    forall e | e in NonEmpty(exp)
      ensures e in Expected(mz)
    {
      var j :| 0 <= j < |exp| && IsFirstEvent(exp, j) && exp[j].events != {} && exp[j] == e;
      FirstMaskIs(exp, e.zocket, j);
      var k :| 0 <= k < |zs| && zs[k] == e.zocket;
      var i := FirstOf(mz, k);
      assert Counts(mz[i]) && e == Event(mz[i].zocket, mz[i].exp);
    }
    forall k | 0 <= k < |mz| && Counts(mz[k])
      ensures FirstCounts(mz, mz[k].zocket)
    {
      var i := FirstOf(mz, k);
      assert Counts(mz[i]);
    }
  }

  /** The first entry of the zocket of entry k. */
  lemma FirstOf(mz: seq<MZocket>, k: nat) returns (i: nat)
    requires k < |mz|
    ensures i <= k && IsFirst(mz, i) && mz[i].zocket == mz[k].zocket
  {
    i := 0;
    while mz[i].zocket != mz[k].zocket
      invariant i <= k && forall m :: 0 <= m < i ==> mz[m].zocket != mz[k].zocket
      decreases k - i
    {
      i := i + 1;
    }
  }

  lemma SameFirst(exp: seq<Event>, j: nat)
    requires j < |exp|
    ensures IsFirst(PlainTable(exp), j) <==> IsFirstEvent(exp, j)
  {
    var mz := PlainTable(exp);
    assert forall i :: 0 <= i < |exp| ==> mz[i].zocket == exp[i].zocket;
    assert IsFirst(mz, j) ==> forall i :: 0 <= i < j ==> exp[i].zocket == mz[i].zocket != exp[j].zocket;
  }

  /** Without descriptions the table expects the given events too. */
  lemma PlainExpects(exp: seq<Event>)
    ensures Expected(PlainTable(exp)) == NonEmpty(exp)
    ensures NoRepeats(exp) ==> DistinctZockets(PlainTable(exp))
  {
    var mz := PlainTable(exp);
    forall e | e in NonEmpty(exp)
      ensures e in Expected(mz)
    {
      var j :| 0 <= j < |exp| && IsFirstEvent(exp, j) && exp[j].events != {} && exp[j] == e;
      SameFirst(exp, j);
      assert Counts(mz[j]) && e == Event(mz[j].zocket, mz[j].exp);
    }
    forall e | e in Expected(mz)
      ensures e in NonEmpty(exp)
    {
      var j :| 0 <= j < |mz| && IsFirst(mz, j) && Counts(mz[j]) && e == Event(mz[j].zocket, mz[j].exp);
      SameFirst(exp, j);
      assert exp[j] == e;
    }
  }

  /** Distinct events of described zockets are no more than the descriptions. */
  lemma {:induction false} FewerEvents(exp: seq<Event>, zs: seq<nat>)
    requires NoRepeats(exp) && Described(exp, zs)
    ensures |exp| <= |zs|
  {
    if exp != [] {
      var n := |exp| - 1;
      var j :| 0 <= j < |zs| && zs[j] == exp[n].zocket;
      var rest := zs[..j] + zs[j + 1..];
      forall k | 0 <= k < n
        ensures exp[..n][k].zocket in rest
      {
        var i :| 0 <= i < |zs| && zs[i] == exp[k].zocket;
        assert rest[if i < j then i else i - 1] == zs[i];
      }
      FewerEvents(exp[..n], rest);
    }
  }

  /** So with distinct events and descriptions no entry is left over, and the checker waits for as many
      events as are given with a nonempty mask. */
  lemma DistinctTable(exp: seq<Event>, zs: seq<nat>)
    requires NoRepeats(exp) && Distinct(zs) && Described(exp, zs)
    ensures DistinctZockets(DescribedTable(exp, zs))
    ensures CountExpected(DescribedTable(exp, zs)) == |NonEmpty(exp)|
  {
    FewerEvents(exp, zs);
    DescribedExpects(exp, zs);
    DistinctEachFirst(DescribedTable(exp, zs));
    CountIsCardinality(DescribedTable(exp, zs));
  }

  /** The mask of the first event for z, by the loop of the source. */
  method FindMask(exp: seq<Event>, z: nat) returns (mask: Mask)
    ensures mask == FirstMask(exp, z)
  {
    for j := 0 to |exp|
      invariant FirstMask(exp, z) == FirstMask(exp[j..], z)
    {
      if exp[j].zocket == z {
        return exp[j].events;
      }
      assert exp[j..][1..] == exp[j + 1..];
    }
    return {};
  }

  /** The table for described zockets; not ok is the TEST_FAIL for a missing description. */
  method FillDescribed(exp: seq<Event>, zs: seq<nat>) returns (ok: bool, mz: array<MZocket>)
    ensures ok <==> Described(exp, zs)
    ensures ok ==> mz[..] == DescribedTable(exp, zs)
  {
    mz := new MZocket[Max(|exp|, |zs|)](_ => MZocket(0, false, {}));
    for j := 0 to |exp|
      invariant Described(exp[..j], zs)
    {
      if exp[j].zocket !in zs {
        return false, mz;
      }
    }
    for i := 0 to |zs|
      invariant forall k :: 0 <= k < i ==> mz[k] == Entry(zs[k], FirstMask(exp, zs[k]))
      invariant forall k :: i <= k < mz.Length ==> mz[k] == MZocket(0, false, {})
    {
      var mask := FindMask(exp, zs[i]);
      mz[i] := MZocket(zs[i], true, mask);
    }
    return true, mz;
  }

  method FillPlain(exp: seq<Event>) returns (mz: array<MZocket>)
    ensures mz[..] == PlainTable(exp)
  {
    mz := new MZocket[|exp|](_ => MZocket(0, false, {}));
    for j := 0 to |exp|
      invariant forall k :: 0 <= k < j ==> mz[k] == Entry(exp[k].zocket, exp[k].events)
    {
      mz[j] := MZocket(exp[j].zocket, true, exp[j].events);
    }
  }

  ghost function Table(exp: seq<Event>, descrs: Option<seq<nat>>): seq<MZocket> {
    if descrs.Some? then DescribedTable(exp, descrs.value) else PlainTable(exp)
  }

  /** No zocket that has to report is described twice; without descriptions, no event with a mask comes after
      another one for its zocket. */
  ghost predicate AskedOnce(exp: seq<Event>, descrs: Option<seq<nat>>) {
    match descrs
    case Some(zs) => forall i, j :: 0 <= i < j < |zs| && zs[i] == zs[j] ==> FirstMask(exp, zs[i]) == {}
    case None => forall k :: 0 <= k < |exp| && exp[k].events != {} ==> IsFirstEvent(exp, k)
  }

  lemma AskedOnceEachFirst(exp: seq<Event>, descrs: Option<seq<nat>>)
    ensures AskedOnce(exp, descrs) <==> EachFirst(Table(exp, descrs))
  {
    match descrs
    case Some(zs) => DescribedEachFirst(exp, zs);
    case None =>
      var mz := PlainTable(exp);
      forall k | 0 <= k < |exp|
        ensures mz[k] == Entry(exp[k].zocket, exp[k].events) && (IsFirst(mz, k) <==> IsFirstEvent(exp, k))
      {
        SameFirst(exp, k);
      }
      assert AskedOnce(exp, descrs) ==> EachFirst(mz);
      if EachFirst(mz) {
        forall k | 0 <= k < |exp| && exp[k].events != {}
          ensures IsFirstEvent(exp, k)
        {
          assert Counts(mz[k]);
        }
      }
  }

  lemma DescribedEachFirst(exp: seq<Event>, zs: seq<nat>)
    ensures AskedOnce(exp, Some(zs)) <==> EachFirst(DescribedTable(exp, zs))
  {
    var mz := DescribedTable(exp, zs);
    assert forall k :: 0 <= k < |zs| ==> mz[k] == Entry(zs[k], FirstMask(exp, zs[k]));
    if AskedOnce(exp, Some(zs)) {
      forall k | 0 <= k < |mz| && Counts(mz[k])
        ensures IsFirst(mz, k)
      {
        assert k < |zs|;
        assert forall i :: 0 <= i < k ==> mz[i].zocket == zs[i];
      }
    }
    if EachFirst(mz) {
      forall i, j | 0 <= i < j < |zs| && zs[i] == zs[j]
        ensures FirstMask(exp, zs[i]) == {}
      {
        assert mz[i].zocket == mz[j].zocket;
        assert !IsFirst(mz, j);
      }
    }
  }

  lemma TableExpects(exp: seq<Event>, descrs: Option<seq<nat>>)
    requires descrs.Some? ==> Described(exp, descrs.value)
    ensures Expected(Table(exp, descrs)) == NonEmpty(exp)
    ensures Consistent(Table(exp, descrs)) <==> descrs.Some? || Consistent(PlainTable(exp))
  {
    match descrs
    case Some(zs) => DescribedExpects(exp, zs);
    case None => PlainExpects(exp);
  }

  /** For which events and descriptions the check passes, in every outcome, exactly when no wait failed and the
      reports are the given events that have a nonempty mask, of each zocket the first. */
  lemma MuxerCheckExactlyWhen(exp: seq<Event>, descrs: Option<seq<nat>>, timeout: int, start: nat)
    requires descrs.Some? ==> Described(exp, descrs.value)
    ensures (forall v, evts, waits ::
               Outcome(v, Table(exp, descrs), evts, waits, timeout, start, false)
               ==> PassesIfEqual(v, evts, waits, NonEmpty(exp)))
            <==> AskedOnce(exp, descrs) || |NonEmpty(exp)| > MAX_EVTS
  {
    TableExpects(exp, descrs);
    AskedOnceEachFirst(exp, descrs);
    PassesExactlyWhenEqual(Table(exp, descrs), timeout, start, false);
  }

  /** With or without descriptions of the zockets, the check is that of the table for the given events. An
      event for a zocket that is not described fails the test before anything is waited for. */
  method CheckMuxerEvents(mux: Muxer, timeout: int, exp: seq<Event>, descrs: Option<seq<nat>>) returns (v: Verdict)
    modifies mux
    ensures old(mux.reported) <= mux.reported && old(mux.waits) <= mux.waits
    ensures v == NoDescription <==> descrs.Some? && !Described(exp, descrs.value)
    ensures v == NoDescription ==> mux.waits == old(mux.waits) && mux.reported == old(mux.reported)
    ensures v != NoDescription ==>
              var evts, waits := mux.reported[|old(mux.reported)|..], mux.waits[|old(mux.waits)|..];
              && Outcome(v, Table(exp, descrs), evts, waits, timeout, old(mux.spent), false)
              && Judged(v, evts, NonEmpty(exp), descrs.Some? || Consistent(PlainTable(exp)))
              && (AskedOnce(exp, descrs) ==> PassesIfEqual(v, evts, waits, NonEmpty(exp)))
  {
    var mz;
    if descrs.Some? {
      var ok;
      ok, mz := FillDescribed(exp, descrs.value);
      if !ok {
        return NoDescription;
      }
    } else {
      mz := FillPlain(exp);
    }
    TableExpects(exp, descrs);
    AskedOnceEachFirst(exp, descrs);
    v := CheckEvents(mux, mz, timeout, false);
  }
}
