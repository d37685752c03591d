/** Peers of a listening zocket: each accepted zocket is matched to the peer socket with its remote
    address. zftl_accept() hands connections over in any order. */
module ListenPeers {
  import opened Basics

  type Addr = nat
  const CLOSED := -1

  datatype Peer = Peer(sock: int, addr: Addr)

  /** The addresses of the peers that are still open. */
  function OpenAddrs(peers: seq<Peer>): multiset<Addr> {
    if peers == [] then multiset{}
    else OpenAddrs(peers[..|peers| - 1])
         + if peers[|peers| - 1].sock >= 0 then multiset{peers[|peers| - 1].addr} else multiset{}
  }

  lemma {:induction false} ClosePeer(peers: seq<Peer>, j: nat)
    requires j < |peers| && peers[j].sock >= 0
    ensures peers[j].addr in OpenAddrs(peers)
    ensures OpenAddrs(peers[j := peers[j].(sock := CLOSED)]) == OpenAddrs(peers) - multiset{peers[j].addr}
  {
    var n := |peers| - 1;
    var now := peers[j := peers[j].(sock := CLOSED)];
    if j == n {
      assert now[..n] == peers[..n];
    } else {
      ClosePeer(peers[..n], j);
      assert now[..n] == peers[..n][j := peers[j].(sock := CLOSED)];
    }
  }

  lemma {:induction false} OpenAddrsHas(peers: seq<Peer>, a: Addr)
    ensures a in OpenAddrs(peers) <==> exists j :: 0 <= j < |peers| && peers[j].sock >= 0 && peers[j].addr == a
  {
    if peers != [] {
      var n := |peers| - 1;
      OpenAddrsHas(peers[..n], a);
      assert forall j :: 0 <= j < n ==> peers[..n][j] == peers[j];
    }
  }

  lemma {:induction false} NoneOpen(peers: seq<Peer>)
    ensures OpenAddrs(peers) == multiset{} <==> forall j :: 0 <= j < |peers| ==> peers[j].sock < 0
  {
    if OpenAddrs(peers) == multiset{} {
      forall j | 0 <= j < |peers|
        ensures peers[j].sock < 0
      {
        OpenAddrsHas(peers, peers[j].addr);
      }
    } else {
      var a :| a in OpenAddrs(peers);
      OpenAddrsHas(peers, a);
    }
  }

  ghost predicate AllOpen(peers: seq<Peer>) {
    forall j :: 0 <= j < |peers| ==> peers[j].sock >= 0
  }

  lemma {:induction false} AllOpenCount(peers: seq<Peer>)
    requires AllOpen(peers)
    ensures |OpenAddrs(peers)| == |peers|
  {
    if peers != [] {
      AllOpenCount(peers[..|peers| - 1]);
    }
  }

  /** The listener part of zfts_mzocket. */
  class Listener {
    var lpeers: array<Peer>     // lpeers_max is its Length
    var count: nat              // lpeers_count

    ghost predicate Valid()
      reads this, lpeers
    {
      count <= lpeers.Length && AllOpen(lpeers[..count])
    }

    constructor ()
      ensures Valid() && fresh(lpeers) && count == 0
    {
      lpeers := new Peer[0];
      count := 0;
    }

    /** zfts_mzocket_prepare_events() for EPOLLIN: one more peer socket, not connected yet. */
    method Prepare(sock: nat, unbound: Addr)
      requires Valid()
      modifies this, lpeers
      ensures Valid() && (lpeers == old(lpeers) || fresh(lpeers))
      ensures lpeers[..count] == old(lpeers[..count]) + [Peer(sock, unbound)]
    {
      if count == lpeers.Length {
        var bigger := new Peer[(lpeers.Length + 1) * 2];
        forall k | 0 <= k < count {
          bigger[k] := lpeers[k];
        }
        lpeers := bigger;
      }
      assert lpeers[..count] == old(lpeers[..count]);
      lpeers[count] := Peer(sock, unbound);
      count := count + 1;
    }

    /** zfts_mzocket_invoke_events() for EPOLLIN: connect the last peer and note its address. */
    method Invoke(bound: Addr) returns (ok: bool)
      requires Valid()
      modifies lpeers
      ensures Valid() && (ok <==> count > 0)
      ensures lpeers[..count] == if ok then old(lpeers[..count])[count - 1 := Peer(old(lpeers[count - 1].sock), bound)]
                                 else old(lpeers[..count])
    {
      if count <= 0 {
        return false;
      }
      lpeers[count - 1] := lpeers[count - 1].(addr := bound);
      return true;
    }

    /** zfts_mzocket_process_events() for EPOLLIN. raddrs[i] is the remote address of the i-th accepted
        zocket; false is TEST_FAIL. matched[i] is the peer it was checked against and closed with. */
    method Process(raddrs: seq<Addr>) returns (ok: bool, matched: seq<nat>)
      requires Valid() && |raddrs| == count
      modifies this, lpeers
      ensures lpeers == old(lpeers) && count == if ok then 0 else old(count)
      ensures ok <==> multiset(raddrs) == OpenAddrs(old(lpeers[..count]))
      ensures ok ==> Matching(raddrs, old(lpeers[..count]), matched)
      ensures ok ==> forall j :: 0 <= j < old(count) ==> lpeers[j].sock < 0
    {
      ghost var was := lpeers[..count];
      matched := [];
      var i := 0;
      while i < count
        invariant 0 <= i <= count == |was| && lpeers == old(lpeers)
        invariant MatchedSoFar(was, lpeers[..count], raddrs, matched, i)
      {
        var found, j := MatchOne(raddrs, i, was, matched);
        if !found {
          return false, matched;
        }
        matched, i := matched + [j], i + 1;
      }
      ghost var now := lpeers[..count];
      AllMatched(raddrs, was, now);
      assert forall j :: 0 <= j < count ==> now[j] == lpeers[j];
      count := 0;
      return true, matched;
    }

    /** One accepted zocket: find its peer, check the connection, close both. */
    method MatchOne(raddrs: seq<Addr>, i: nat, ghost was: seq<Peer>, ghost matched: seq<nat>) returns (ok: bool, j: nat)
      requires count <= lpeers.Length && count == |was| && i < |raddrs|
      requires MatchedSoFar(was, lpeers[..count], raddrs, matched, i)
      modifies lpeers
      ensures ok ==> MatchedSoFar(was, lpeers[..count], raddrs, matched + [j], i + 1)
      ensures !ok ==> multiset(raddrs) != OpenAddrs(was)
    {
      ghost var open := lpeers[..count];
      j := FindOpen(raddrs[i]);
      if j >= count {
        Unmatched(raddrs, i, OpenAddrs(open), OpenAddrs(was));
        return false, j;
      }
      MatchedOneMore(was, open, raddrs, matched, i, j);
      lpeers[j] := lpeers[j].(sock := CLOSED);
      assert lpeers[..count] == open[j := open[j].(sock := CLOSED)];
      return true, j;
    }

    /** The search for an open peer with address a; count when there is none. */
    method FindOpen(a: Addr) returns (j: nat)
      requires count <= lpeers.Length
      ensures j <= count
      ensures if j < count then lpeers[j].sock >= 0 && lpeers[j].addr == a else a !in OpenAddrs(lpeers[..count])
    {
      j := 0;
      while j < count && !(lpeers[j].sock >= 0 && lpeers[j].addr == a)
        invariant 0 <= j <= count
        invariant forall m :: 0 <= m < j ==> !(lpeers[m].sock >= 0 && lpeers[m].addr == a)
      {
        j := j + 1;
      }
      OpenAddrsHas(lpeers[..count], a);
    }
  }

  /** After i accepts exactly the i matched peers are closed. */
  ghost predicate MatchedSoFar(was: seq<Peer>, now: seq<Peer>, raddrs: seq<Addr>, matched: seq<nat>, i: nat) {
    && |matched| == i <= |raddrs| && |now| == |was|
    && multiset(raddrs[..i]) + OpenAddrs(now) == OpenAddrs(was)
    && (forall j :: 0 <= j < |was| ==> now[j].addr == was[j].addr && (now[j].sock < 0 <==> j in matched))
    && (forall m :: 0 <= m < i ==> matched[m] < |was| && was[matched[m]].addr == raddrs[m])
    && (forall m, n :: 0 <= m < n < i ==> matched[m] != matched[n])
  }

  lemma MatchedOneMore(was: seq<Peer>, now: seq<Peer>, raddrs: seq<Addr>, matched: seq<nat>, i: nat, j: nat)
    requires MatchedSoFar(was, now, raddrs, matched, i) && i < |raddrs| && j < |was|
    requires now[j].sock >= 0 && now[j].addr == raddrs[i]
    ensures MatchedSoFar(was, now[j := now[j].(sock := CLOSED)], raddrs, matched + [j], i + 1)
  {
    assert j !in matched;
    AddrsMove(was, now, raddrs, i, j);
  }

  /** The address of the peer that is closed moves from the open ones to those accepted. */
  lemma AddrsMove(was: seq<Peer>, now: seq<Peer>, raddrs: seq<Addr>, i: nat, j: nat)
    requires i < |raddrs| && j < |now| && now[j].sock >= 0 && now[j].addr == raddrs[i]
    requires multiset(raddrs[..i]) + OpenAddrs(now) == OpenAddrs(was)
    ensures multiset(raddrs[..i + 1]) + OpenAddrs(now[j := now[j].(sock := CLOSED)]) == OpenAddrs(was)
  {
    assert raddrs[..i + 1] == raddrs[..i] + [raddrs[i]];
    ClosePeer(now, j);
  }

  /** matched is a bijection from the accepted zockets to the peers, and respects addresses. */
  ghost predicate Matching(raddrs: seq<Addr>, peers: seq<Peer>, matched: seq<nat>) {
    && |matched| == |raddrs| == |peers|
    && (forall m :: 0 <= m < |matched| ==> matched[m] < |peers| && peers[matched[m]].addr == raddrs[m])
    && (forall m, n :: 0 <= m < n < |matched| ==> matched[m] != matched[n])
  }

  lemma Unmatched(raddrs: seq<Addr>, i: nat, open: multiset<Addr>, all: multiset<Addr>)
    requires i < |raddrs| && raddrs[i] !in open && multiset(raddrs[..i]) + open == all
    ensures multiset(raddrs) != all
  {
    var a := raddrs[i];
    assert raddrs == raddrs[..i] + [a] + raddrs[i + 1..];
    assert multiset(raddrs)[a] > all[a];
  }

  lemma AllMatched(raddrs: seq<Addr>, was: seq<Peer>, now: seq<Peer>)
    requires |raddrs| == |was| && AllOpen(was)
    requires multiset(raddrs[..|raddrs|]) + OpenAddrs(now) == OpenAddrs(was)
    ensures multiset(raddrs) == OpenAddrs(was) && forall j :: 0 <= j < |now| ==> now[j].sock < 0
  {
    AllOpenCount(was);
    assert raddrs[..|raddrs|] == raddrs;
    assert |multiset(raddrs)| + |OpenAddrs(now)| == |OpenAddrs(was)|;
    NoneOpen(now);
  }

  /** A matching leaves no peer out. */
  lemma EveryPeerMatched(raddrs: seq<Addr>, peers: seq<Peer>, matched: seq<nat>, j: nat)
    requires Matching(raddrs, peers, matched) && j < |peers|
    ensures exists m :: 0 <= m < |matched| && matched[m] == j
  {
    Elements(matched);
    BelowSize(|peers|);
    var hit, all := (set x: nat | x in matched), Below(|peers|);
    assert hit <= all;
    assert |all| == |hit| + |all - hit|;
    assert j in all && all - hit == {};
    assert j in matched;
  }

  /** The numbers below n. */
  function Below(n: nat): set<nat> {
    if n == 0 then {} else Below(n - 1) + {n - 1}
  }

  lemma {:induction false} BelowSize(n: nat)
    ensures |Below(n)| == n && forall k :: k in Below(n) <==> 0 <= k < n
  {
    if n > 0 {
      BelowSize(n - 1);
    }
  }

  lemma {:induction false} Elements(xs: seq<nat>)
    requires Distinct(xs)
    ensures |set x: nat | x in xs| == |xs|
  {
    if xs != [] {
      var n := |xs| - 1;
      Elements(xs[..n]);
      var front := set x: nat | x in xs[..n];
      assert xs[n] !in front;
      assert (set x: nat | x in xs) == front + {xs[n]};
    } else {
      assert (set x: nat | x in xs) == {};
    }
  }

  const NO_ZFT: nat := 0

  /** The search for the first Tester socket with address a. */
  method FirstNamed(names: seq<Addr>, a: Addr) returns (j: nat)
    ensures j <= |names| && (j < |names| ==> names[j] == a)
    ensures forall m :: 0 <= m < j ==> names[m] != a
  {
    j := 0;
    while j < |names| && names[j] != a
      invariant 0 <= j <= |names|
      invariant forall m :: 0 <= m < j ==> names[m] != a
    {
      j := j + 1;
    }
  }

  /** The accept loop of the listen_backlog test: names[j] is the address of the j-th Tester socket,
      raddrs[i] and zocks[i] are what the i-th accept returns. zfts[j] becomes the zocket of socket j. */
  method AcceptAll(names: seq<Addr>, raddrs: seq<Addr>, zocks: seq<nat>, zfts: array<nat>)
    returns (ok: bool, matched: seq<nat>)
    requires |names| == |raddrs| == |zocks| == zfts.Length
    requires forall j :: 0 <= j < zfts.Length ==> zfts[j] == NO_ZFT
    requires forall i :: 0 <= i < |zocks| ==> zocks[i] != NO_ZFT
    modifies zfts
    ensures ok <==> Distinct(raddrs) && forall i :: 0 <= i < |raddrs| ==> raddrs[i] in names
    ensures ok ==> Assigned(names, raddrs, matched, |raddrs|)
    ensures ok ==> forall i :: 0 <= i < |raddrs| ==> zfts[matched[i]] == zocks[i]
  {
    matched := [];
    var i := 0;
    while i < |names|
      invariant 0 <= i <= |names|
      invariant Accepted(names, raddrs, zocks, zfts[..], matched, i)
    {
      var j := FirstNamed(names, raddrs[i]);
      if j == |names| {
        assert raddrs[i] !in names;
        return false, matched;
      }
      if zfts[j] != NO_ZFT {
        assert j in matched && exists m :: 0 <= m < i && matched[m] == j;
        return false, matched;
      }
      AcceptOne(names, raddrs, zocks, zfts[..], matched, i, j);
      zfts[j] := zocks[i];
      matched := matched + [j];
      i := i + 1;
    }
    return true, matched;
  }

  /** After i accepts: distinct addresses, each zocket at the first socket with its address. */
  ghost predicate Accepted(names: seq<Addr>, raddrs: seq<Addr>, zocks: seq<nat>, zfts: seq<nat>, matched: seq<nat>, i: nat) {
    && Assigned(names, raddrs, matched, i) && i <= |zocks| && |zfts| == |names|
    && (forall m :: 0 <= m < i ==> zfts[matched[m]] == zocks[m])
    && (forall j :: 0 <= j < |zfts| && zfts[j] != NO_ZFT ==> j in matched)
    && (forall m, k :: 0 <= m < i && 0 <= k < matched[m] ==> names[k] != raddrs[m])
    && (forall m, n :: 0 <= m < n < i ==> raddrs[m] != raddrs[n])
  }

  lemma AcceptOne(names: seq<Addr>, raddrs: seq<Addr>, zocks: seq<nat>, zfts: seq<nat>, matched: seq<nat>, i: nat, j: nat)
    requires Accepted(names, raddrs, zocks, zfts, matched, i) && i < |raddrs| && i < |zocks| && j < |names|
    requires names[j] == raddrs[i] && zfts[j] == NO_ZFT
    requires forall m :: 0 <= m < j ==> names[m] != raddrs[i]
    requires forall m :: 0 <= m < |zocks| ==> zocks[m] != NO_ZFT
    ensures Accepted(names, raddrs, zocks, zfts[j := zocks[i]], matched + [j], i + 1)
  {
    assert forall m :: 0 <= m < i ==> matched[m] != j;
    assert forall m :: 0 <= m < i && raddrs[m] == raddrs[i] ==> matched[m] == j;
  }

  /** The first k accepted zockets are matched to sockets with their addresses, no two to the same. */
  ghost predicate Assigned(names: seq<Addr>, raddrs: seq<Addr>, matched: seq<nat>, k: nat) {
    && |matched| == k <= |raddrs|
    && (forall m :: 0 <= m < k ==> matched[m] < |names| && names[matched[m]] == raddrs[m])
    && (forall m, n :: 0 <= m < n < k ==> matched[m] != matched[n])
  }

  /** So an accept loop that succeeds has given every Tester socket its own zocket. */
  lemma EverySocketAssigned(names: seq<Addr>, raddrs: seq<Addr>, matched: seq<nat>, j: nat)
    requires |names| == |raddrs| && Assigned(names, raddrs, matched, |raddrs|) && j < |names|
    ensures exists m :: 0 <= m < |matched| && matched[m] == j
  {
    EveryPeerMatched(raddrs, seq(|names|, k requires 0 <= k < |names| => Peer(0, names[k])), matched, j);
  }
}
