/** Receiving from a TCP zocket by two different APIs, as one operation on a byte stream. */
module ZftReceive {
  import opened Basics
  import opened Iovecs

  datatype Func = ZcRecv | Recv

  /** All buffers, one after the other. */
  function Concat(bufs: seq<seq<Byte>>): seq<Byte> {
    if bufs == [] then [] else Concat(bufs[..|bufs| - 1]) + bufs[|bufs| - 1]
  }

  /** What one receiving call of the library was asked for and did: it failed, lent n bytes in count of at most
      room buffers, or copied n of at most room bytes. */
  datatype Receipt = Failed(func: Func, room: nat) | Lent(room: nat, count: nat, n: nat) | Copied(room: nat, n: nat)

  /** A TCP zocket: the bytes that will still be read from it, in order, and what the last
      zft_zc_recv() has lent out and is not done with yet. */
  class Zocket {
    var stream: seq<Byte>
    var lent: seq<Byte>
    ghost var receipts: seq<Receipt>  // one for every receiving call
    ghost var lastDone: int           // what the last zft_zc_recv_done() returned

    /** zft_zc_recv(): lend the next bytes in at most iovcnt buffers; none when nothing has arrived. */
    method ZcRecv(iovcnt: nat) returns (ok: bool, bufs: seq<seq<Byte>>)
      requires lent == []
      modifies this
      ensures stream == old(stream) && |bufs| <= iovcnt && lastDone == old(lastDone)
      ensures lent == Concat(bufs) && lent <= stream
      ensures receipts == old(receipts) + [if ok then Lent(iovcnt, |bufs|, |lent|) else Failed(Func.ZcRecv, iovcnt)]
      ensures !ok ==> bufs == []
    {
      ok := *;
      bufs := *;
      if !ok || |bufs| > iovcnt || !(Concat(bufs) <= stream) {
        bufs := [];
      }
      lent := Concat(bufs);
      receipts := receipts + [if ok then Lent(iovcnt, |bufs|, |lent|) else Failed(Func.ZcRecv, iovcnt)];
    }

    /** zft_zc_recv_done(): everything lent is consumed. A message without data marks the end of the
        stream, and the result is then not positive. */
    method Done() returns (rc: int)
      requires lent <= stream
      modifies this
      ensures stream == old(stream)[|old(lent)|..] && lent == []
      ensures receipts == old(receipts) && lastDone == rc
      ensures old(lent) == [] ==> rc <= 0
    {
      rc := *;
      if lent == [] && rc > 0 {
        rc := 0;
      }
      stream, lent, lastDone := stream[|lent|..], [], rc;
    }

    /** zft_zc_recv_done_some(): only the first len bytes are consumed, the rest is lent again later. */
    method DoneSome(len: nat) returns (rc: int)
      requires lent <= stream && len < |lent|
      modifies this
      ensures stream == old(stream)[len..] && lent == [] && receipts == old(receipts)
    {
      stream, lent := stream[len..], [];
      rc := *;
    }

    /** zft_recv(): fill the vectors, which make up the start of buf, in order; negative on error. */
    method ReadInto(buf: array<Byte>, iovs: seq<Iov>) returns (rc: int)
      requires Partition(iovs, TotalLength(iovs)) && TotalLength(iovs) <= buf.Length && lent == []
      modifies this, buf
      ensures lent == [] && rc <= TotalLength(iovs) && rc <= |old(stream)|
      ensures receipts == old(receipts) + [if rc < 0 then Failed(Recv, TotalLength(iovs)) else Copied(TotalLength(iovs), rc)]
      ensures rc < 0 ==> stream == old(stream) && buf[..] == old(buf[..])
      ensures rc >= 0 ==> stream == old(stream)[rc..] && Received(buf[..], old(buf[..]), old(stream)[..rc])
    {
      rc := *;
      if rc > TotalLength(iovs) || rc > |stream| {
        rc := -1;
      }
      if rc >= 0 {
        forall k | 0 <= k < rc {
          buf[k] := stream[k];
        }
        stream := stream[rc..];
      }
      receipts := receipts + [if rc < 0 then Failed(Recv, TotalLength(iovs)) else Copied(TotalLength(iovs), rc)];
    }
  }

  /** The function was asked for everything that fits the buffer: in zft_recv() mode for just len bytes, in
      zft_zc_recv() mode for the least number of buffers of DATA_MAX bytes that hold len, and at least one. */
  ghost predicate AskedFor(r: Receipt, func: Func, len: nat) {
    match func
    case Recv => !r.Lent? && r.room == len && (r.Failed? ==> r.func == Recv)
    case ZcRecv =>
      && !r.Copied? && (r.Failed? ==> r.func == ZcRecv)
      && r.room >= 1 && len <= r.room * DATA_MAX && (r.room > 1 ==> (r.room - 1) * DATA_MAX < len)
  }

  /** The return value: of the bytes lent as many as fit the buffer; of the bytes copied all. */
  ghost predicate Returned(rc: int, r: Receipt, len: nat) {
    match r
    case Failed(_, _) => rc < 0
    case Lent(_, _, n) => rc == if n < len then n else len
    case Copied(_, n) => rc == n
  }

  /** The library hands over what is there as far as it fits what it was asked for: bytes, or full buffers. */
  ghost predicate HandsOver(r: Receipt, stream: seq<Byte>) {
    match r
    case Failed(_, _) => false
    case Lent(room, _, n) => n == if |stream| < room * DATA_MAX then |stream| else room * DATA_MAX
    case Copied(room, n) => n == if |stream| < room then |stream| else room
  }

  /** With such a library both ways of receiving return the same: all that is there or fits the buffer. */
  lemma ReceivesAll(rc: int, r: Receipt, func: Func, len: nat, stream: seq<Byte>)
    requires AskedFor(r, func, len) && Returned(rc, r, len) && HandsOver(r, stream)
    ensures rc == if |stream| < len then |stream| else len
  {
  }

  /** The buffer starts with data and is otherwise as it was. */
  ghost predicate Received(buf: seq<Byte>, was: seq<Byte>, data: seq<Byte>) {
    |data| <= |buf| == |was| && buf == data + was[|data|..]
  }

  /** What one call of the receiving function does to the stream: rc bytes move from its front to the
      front of the buffer; an error moves nothing. */
  ghost predicate ReceiveStep(rc: int, len: nat, before: seq<Byte>, after: seq<Byte>, buf: seq<Byte>, was: seq<Byte>) {
    && rc <= len
    && if rc < 0 then after == before && buf == was
       else rc <= |before| && after == before[rc..] && Received(buf, was, before[..rc])
  }

  /** zfts_zft_recv_func(): both ways of receiving are the same operation on the stream. */
  method RecvFunc(z: Zocket, func: Func, buf: array<Byte>, len: nat) returns (rc: int)
    requires len <= buf.Length && z.lent == []
    modifies z, buf
    ensures z.lent == [] && ReceiveStep(rc, len, old(z.stream), z.stream, buf[..], old(buf[..]))
    ensures |z.receipts| == |old(z.receipts)| + 1 && old(z.receipts) < z.receipts
    ensures var r := z.receipts[|old(z.receipts)|];
            && AskedFor(r, func, len) && Returned(rc, r, len)
            && (HandsOver(r, old(z.stream)) ==> rc == if |old(z.stream)| < len then |old(z.stream)| else len)
  {
    match func
    case ZcRecv =>
      ChunkCountIs(len);
      var ok, bufs := z.ZcRecv(ChunkCount(len));
      if !ok {
        return -1;
      }
      if bufs == [] {
        return 0;
      }
      var aux := Concat(bufs);
      var copyLen: nat;
      if len >= |aux| {
        copyLen := |aux|;
        var _ := z.Done();
      } else {
        copyLen := len;
        var _ := z.DoneSome(copyLen);
      }
      forall k | 0 <= k < copyLen {
        buf[k] := aux[k];
      }
      return copyLen;
    case Recv =>
      var iovs, num := RecvSplit(len);
      PartitionLength(iovs[..num], len);
      rc := z.ReadInto(buf, iovs[..num]);
  }

  /** One call as seen from outside: the stream and the buffer before and after it. */
  datatype Call = Call(rc: int, len: nat, before: seq<Byte>, after: seq<Byte>, was: seq<Byte>, buf: seq<Byte>)

  ghost predicate Step(c: Call) { ReceiveStep(c.rc, c.len, c.before, c.after, c.buf, c.was) }

  /** Calls one after the other, nothing else touching the stream between them. */
  ghost predicate Calls(calls: seq<Call>) {
    calls == [] ||
    (var n := |calls| - 1;
     Calls(calls[..n]) && Step(calls[n]) && (n > 0 ==> calls[n - 1].after == calls[n].before))
  }

  /** What a call handed out. */
  function Output(c: Call): seq<Byte> {
    if 0 <= c.rc <= |c.buf| then c.buf[..c.rc] else []
  }

  function Outputs(calls: seq<Call>): seq<Byte> {
    if calls == [] then [] else Outputs(calls[..|calls| - 1]) + Output(calls[|calls| - 1])
  }

  /** Over any mix of calls the bytes handed out and the bytes left make up the original stream. */
  lemma {:induction false} NothingLostOrRepeated(calls: seq<Call>)
    requires calls != [] && Calls(calls)
    ensures calls[0].before == Outputs(calls) + calls[|calls| - 1].after
  {
    var n := |calls| - 1;
    OneCall(calls[n]);
    assert Outputs(calls) == Outputs(calls[..n]) + Output(calls[n]);
    if n > 0 {
      NothingLostOrRepeated(calls[..n]);
      Assoc(Outputs(calls[..n]), Output(calls[n]), calls[n].after);
    }
  }

  lemma OneCall(c: Call)
    requires Step(c)
    ensures c.before == Output(c) + c.after
  {
    if c.rc >= 0 {
      assert c.buf[..c.rc] == c.before[..c.rc];
    }
  }

  predicate OneBuffer(r: Receipt) { !r.Copied? && r.room == 1 }

  /** zft_read_all_zc() on the agent: lend one buffer at a time and keep a copy, until there is nothing
      or the peer has finished. */
  method ReadAllZc(z: Zocket) returns (rc: int, dbuf: seq<Byte>, read: nat)
    requires z.lent == []
    modifies z
    ensures z.lent == [] && dbuf + z.stream == old(z.stream) && read == |dbuf|
    ensures old(z.receipts) < z.receipts
    ensures forall k :: |old(z.receipts)| <= k < |z.receipts| ==> OneBuffer(z.receipts[k])
    ensures rc == 0 || rc == -1
    ensures var last := z.receipts[|z.receipts| - 1];
            var nothing := last.Failed? || (last.Lent? && last.count == 0);
            if rc == 0 then nothing || z.lastDone == 0 else !nothing && z.lastDone < 0
  {
    dbuf, read := [], 0;
    while true
      invariant z.lent == [] && dbuf + z.stream == old(z.stream) && read == |dbuf|
      invariant old(z.receipts) <= z.receipts
      invariant forall k :: |old(z.receipts)| <= k < |z.receipts| ==> OneBuffer(z.receipts[k])
      decreases |z.stream|
    {
      var ok, bufs := z.ZcRecv(1);
      if |bufs| > 0 {
        assert bufs[..0] == [] && bufs == [bufs[0]];
        read := read + |bufs[0]|;
        dbuf := dbuf + bufs[0];
        ghost var left := z.stream;
        assert left == bufs[0] + left[|bufs[0]|..];
        rc := z.Done();
        if rc == 0 {
          break;
        }
        if rc < 0 {
          return -1, dbuf, read;
        }
      } else {
        break;
      }
    }
    return 0, dbuf, read;
  }
}
