/** Splitting a buffer into an array of rpc_iovec structures, and comparing such an array with data. */
module Iovecs {
  import opened Basics

  /** ZFTS_TCP_DATA_MAX */
  const DATA_MAX: nat := 1400

  /** iov_base as an offset into the buffer that is split, or NO_BASE for a null pointer, and iov_len. */
  const NO_BASE := -1
  datatype Iov = Iov(base: int, len: nat)

  /** The vectors cover total bytes from the start of the buffer in order, without gap or overlap. An
      empty vector may have no base. */
  ghost predicate Partition(iovs: seq<Iov>, total: nat) {
    if iovs == [] then total == 0
    else
      var v := iovs[|iovs| - 1];
      && v.len <= total
      && (v.base == total - v.len || (v.len == 0 && v.base == NO_BASE))
      && Partition(iovs[..|iovs| - 1], total - v.len)
  }

  /** One more vector right behind the others. */
  lemma PartitionGrows(iovs: seq<Iov>, total: nat, v: Iov)
    requires Partition(iovs, total) && (v.base == total || (v.len == 0 && v.base == NO_BASE))
    ensures Partition(iovs + [v], total + v.len)
  {
    assert (iovs + [v])[..|iovs|] == iovs;
  }

  function TotalLength(iovs: seq<Iov>): nat {
    if iovs == [] then 0 else TotalLength(iovs[..|iovs| - 1]) + iovs[|iovs| - 1].len
  }

  lemma {:induction false} PartitionLength(iovs: seq<Iov>, total: nat)
    requires Partition(iovs, total)
    ensures TotalLength(iovs) == total
  {
    if iovs != [] {
      PartitionLength(iovs[..|iovs| - 1], total - iovs[|iovs| - 1].len);
    }
  }

  predicate Fits(v: Iov, buf: seq<Byte>) {
    if v.base == NO_BASE then v.len == 0 else 0 <= v.base && v.base + v.len <= |buf|
  }

  /** Every vector lies inside the buffer. */
  ghost predicate Within(iovs: seq<Iov>, buf: seq<Byte>) {
    forall k :: 0 <= k < |iovs| ==> Fits(iovs[k], buf)
  }

  function Bytes(v: Iov, buf: seq<Byte>): (r: seq<Byte>)
    requires Fits(v, buf)
    ensures |r| == v.len
  {
    if v.len == 0 then [] else buf[v.base..v.base + v.len]
  }

  /** The data of all vectors, one after the other. */
  ghost function Gather(iovs: seq<Iov>, buf: seq<Byte>): (r: seq<Byte>)
    requires Within(iovs, buf)
  {
    if iovs == [] then [] else Gather(iovs[..|iovs| - 1], buf) + Bytes(iovs[|iovs| - 1], buf)
  }

  lemma {:induction false} PartitionWithin(iovs: seq<Iov>, total: nat, buf: seq<Byte>)
    requires Partition(iovs, total) && total <= |buf|
    ensures Within(iovs, buf)
  {
    if iovs != [] {
      var n := |iovs| - 1;
      PartitionWithin(iovs[..n], total - iovs[n].len, buf);
      assert forall k :: 0 <= k < n ==> iovs[..n][k] == iovs[k];
    }
  }

  /** Gathering a partition of the first total bytes gives these bytes back. */
  lemma {:induction false} PartitionGathers(iovs: seq<Iov>, total: nat, buf: seq<Byte>)
    requires Partition(iovs, total) && total <= |buf| && Within(iovs, buf)
    ensures Gather(iovs, buf) == buf[..total]
  {
    if iovs != [] {
      var n := |iovs| - 1;
      PartitionGathers(iovs[..n], total - iovs[n].len, buf);
      assert buf[..total] == buf[..total - iovs[n].len] + Bytes(iovs[n], buf);
    }
  }

  /** Gathering fewer vectors gives a prefix. */
  lemma {:induction false} GatherPrefix(iovs: seq<Iov>, buf: seq<Byte>, k: nat)
    requires k <= |iovs| && Within(iovs, buf)
    ensures Gather(iovs[..k], buf) <= Gather(iovs, buf)
  {
    var n := |iovs| - 1;
    if k == |iovs| {
      assert iovs[..k] == iovs;
    } else {
      GatherPrefix(iovs[..n], buf, k);
      assert iovs[..n][..k] == iovs[..k];
    }
  }

  lemma GatherNext(iovs: seq<Iov>, buf: seq<Byte>, k: nat)
    requires k < |iovs| && Within(iovs, buf)
    ensures Gather(iovs[..k + 1], buf) == Gather(iovs[..k], buf) + Bytes(iovs[k], buf)
  {
    assert iovs[..k + 1][..k] == iovs[..k];
  }

  datatype Comparison = Same | Negative | TooShort | Differs | TooLong

  /** zfts_iovec_cmp_data(): all results but Same fail the test. */
  method Compare(iovs: seq<Iov>, buf: seq<Byte>, data: seq<Byte>, dataLen: int) returns (r: Comparison)
    requires Within(iovs, buf) && (dataLen >= 0 ==> |data| == dataLen)
    ensures r == Same <==> dataLen >= 0 && data == Gather(iovs, buf)
    ensures r == Negative <==> dataLen < 0
    ensures r == TooShort ==> |data| < |Gather(iovs, buf)|
    ensures r == TooLong ==> Gather(iovs, buf) < data
  {
    if dataLen < 0 {
      return Negative;
    }
    var pos := 0;
    for i := 0 to |iovs|
      invariant 0 <= pos <= |data| && data[..pos] == Gather(iovs[..i], buf)
    {
      var v := iovs[i];
      CompareNext(iovs, buf, data, pos, i);
      if dataLen - pos < v.len {
        return TooShort;
      }
      if Bytes(v, buf) != data[pos..pos + v.len] {
        return Differs;
      }
      pos := pos + v.len;
    }
    assert iovs[..|iovs|] == iovs;
    if dataLen > pos {
      return TooLong;
    }
    assert data[..pos] == data;
    return Same;
  }

  /** What vector i tells when the data matches the vectors before it. */
  lemma CompareNext(iovs: seq<Iov>, buf: seq<Byte>, data: seq<Byte>, pos: nat, i: nat)
    requires Within(iovs, buf) && i < |iovs| && pos <= |data| && data[..pos] == Gather(iovs[..i], buf)
    ensures var v := iovs[i];
            if |data| - pos < v.len then |data| < |Gather(iovs, buf)|
            else if Bytes(v, buf) != data[pos..pos + v.len] then data != Gather(iovs, buf)
            else data[..pos + v.len] == Gather(iovs[..i + 1], buf)
  {
    var v := iovs[i];
    GatherNext(iovs, buf, i);
    GatherPrefix(iovs, buf, i + 1);
    if pos + v.len <= |data| {
      if Bytes(v, buf) != data[pos..pos + v.len] {
        NotGathered(Gather(iovs, buf), data, pos, Bytes(v, buf));
      } else {
        assert data[..pos + v.len] == data[..pos] + data[pos..pos + v.len];
      }
    }
  }

  lemma NotGathered(all: seq<Byte>, data: seq<Byte>, pos: nat, part: seq<Byte>)
    requires pos + |part| <= |data| && data[..pos] + part <= all && data[pos..pos + |part|] != part
    ensures data != all
  {
    assert (data[..pos] + part)[pos..] == part;
    assert all[pos..pos + |part|] == part;
  }

  /** So a split compares equal to data exactly when the data is the buffer that was split. */
  lemma SplitComparesEqual(iovs: seq<Iov>, buf: seq<Byte>, data: seq<Byte>)
    requires Partition(iovs, |buf|)
    ensures Within(iovs, buf) && (data == Gather(iovs, buf) <==> data == buf)
  {
    PartitionWithin(iovs, |buf|, buf);
    PartitionGathers(iovs, |buf|, buf);
    assert buf[..|buf|] == buf;
  }

  /** Write vector v at index i, right behind the vectors before it. */
  method Put(iov: array<Iov>, i: nat, v: Iov, ghost offt: nat)
    requires i < iov.Length && Partition(iov[..i], offt)
    requires v.base == offt || (v.len == 0 && v.base == NO_BASE)
    modifies iov
    ensures Partition(iov[..i + 1], offt + v.len)
    ensures iov[i] == v && forall k :: 0 <= k < i ==> iov[k] == old(iov[k])
  {
    ghost var was := iov[..i];
    PartitionGrows(was, offt, v);
    iov[i] := v;
    assert iov[..i + 1] == was + [v];
  }

  /** realloc() to twice the size. */
  method Double(iov: array<Iov>) returns (bigger: array<Iov>)
    ensures fresh(bigger) && bigger.Length == 2 * iov.Length
    ensures bigger[..iov.Length] == iov[..]
  {
    bigger := new Iov[iov.Length * 2](_ => Iov(NO_BASE, 0));
    forall k | 0 <= k < iov.Length {
      bigger[k] := iov[k];
    }
  }

  /** Room for one more vector behind the first num. */
  method Room(iov: array<Iov>, num: nat) returns (r: array<Iov>)
    requires num <= iov.Length && 0 < iov.Length
    ensures (r == iov || fresh(r)) && num < r.Length && r[..num] == iov[..num]
  {
    r := iov;
    if num == iov.Length {
      r := Double(iov);
    }
  }

  /** Lengths of the vectors: within bounds, but the last one may be shorter. */
  ghost predicate Lengths(iovs: seq<Iov>, minLen: nat, maxLen: nat) {
    forall k :: 0 <= k < |iovs| ==> 1 <= iovs[k].len <= maxLen && (k < |iovs| - 1 ==> minLen <= iovs[k].len)
  }

  /** How many vectors there can be. */
  lemma CountBounds(iovs: seq<Iov>, total: nat, minLen: nat, maxLen: nat)
    requires Partition(iovs, total) && Lengths(iovs, minLen, maxLen)
    ensures total <= |iovs| * maxLen && (iovs != [] ==> (|iovs| - 1) * minLen < total)
  {
    AtMost(iovs, total, maxLen);
    if iovs != [] {
      var n := |iovs| - 1;
      AtLeast(iovs[..n], total - iovs[n].len, minLen);
    }
  }

  lemma {:induction false} AtMost(iovs: seq<Iov>, total: nat, maxLen: nat)
    requires Partition(iovs, total) && forall k :: 0 <= k < |iovs| ==> iovs[k].len <= maxLen
    ensures total <= |iovs| * maxLen
  {
    if iovs != [] {
      var n := |iovs| - 1;
      AtMost(iovs[..n], total - iovs[n].len, maxLen);
      OneMore(n, maxLen);
    }
  }

  lemma {:induction false} AtLeast(iovs: seq<Iov>, total: nat, minLen: nat)
    requires Partition(iovs, total) && forall k :: 0 <= k < |iovs| ==> minLen <= iovs[k].len
    ensures |iovs| * minLen <= total
  {
    if iovs != [] {
      var n := |iovs| - 1;
      AtLeast(iovs[..n], total - iovs[n].len, minLen);
      OneMore(n, minLen);
    }
  }

  /** The first guess at the number of vectors, from the average length. */
  function Guess(len: nat, minPlusMax: nat): (r: nat)
    requires minPlusMax > 0
    ensures r >= 1
  {
    2 * len / minPlusMax + 1
  }

  /** Only a vector that takes all that remained is shorter than minLen. */
  ghost predicate CutSoFar(iovs: seq<Iov>, remained: nat, minLen: nat, maxLen: nat) {
    forall k :: 0 <= k < |iovs| ==>
      1 <= iovs[k].len <= maxLen && (k < |iovs| - 1 || remained > 0 ==> minLen <= iovs[k].len)
  }

  /** One more vector of a random length. */
  method AddIov(iov: array<Iov>, num: nat, len: nat, remained: nat, minLen: nat, maxLen: nat)
    returns (iov': array<Iov>, remained': nat)
    requires 1 <= minLen <= maxLen && 0 < remained <= len && num <= iov.Length && 0 < iov.Length
    requires Partition(iov[..num], len - remained) && CutSoFar(iov[..num], remained, minLen, maxLen)
    modifies iov
    ensures (iov' == iov || fresh(iov')) && num < iov'.Length && remained' < remained
    ensures Partition(iov'[..num + 1], len - remained') && CutSoFar(iov'[..num + 1], remained', minLen, maxLen)
  {
    var curLen: nat :| minLen <= curLen <= maxLen;
    if curLen > remained {
      curLen := remained;
    }
    iov' := Room(iov, num);
    Put(iov', num, Iov(len - remained, curLen), len - remained);
    remained' := remained - curLen;
  }

  /** zfts_split_in_iovs(): vectors of random lengths within bounds, the array doubled when it is full. */
  method SplitInIovs(len: nat, minLen: nat, maxLen: nat) returns (iov: array<Iov>, num: nat)
    requires 1 <= minLen <= maxLen
    ensures num <= iov.Length && Partition(iov[..num], len) && Lengths(iov[..num], minLen, maxLen)
    ensures len <= num * maxLen && (num > 0 ==> (num - 1) * minLen < len)
  {
    iov := new Iov[Guess(len, minLen + maxLen)](_ => Iov(NO_BASE, 0));
    var remained: nat := len;
    num := 0;
    while remained > 0
      invariant num <= iov.Length && 0 < iov.Length && fresh(iov)
      invariant remained <= len && Partition(iov[..num], len - remained)
      invariant CutSoFar(iov[..num], remained, minLen, maxLen)
    {
      iov, remained := AddIov(iov, num, len, remained, minLen, maxLen);
      num := num + 1;
    }
    CountBounds(iov[..num], len, minLen, maxLen);
  }

  /** zfts_zfut_cut_buffer_iov(): random cuts, the last vector takes what is left. */
  method CutBuffer(length: nat, iov: array<Iov>)
    modifies iov
    ensures iov.Length > 0 ==> Partition(iov[..], length)
    ensures forall k :: 0 <= k < iov.Length ==> iov[k].len <= length && (iov[k].base == NO_BASE <==> iov[k].len == 0)
  {
    var offt := 0;
    for i := 0 to iov.Length
      invariant 0 <= offt <= length && Partition(iov[..i], offt)
      invariant i == iov.Length > 0 ==> offt == length
      invariant forall k :: 0 <= k < i ==> iov[k].len <= length && (iov[k].base == NO_BASE <==> iov[k].len == 0)
    {
      var len: nat;
      if i == iov.Length - 1 {
        len := length - offt;
      } else {
        len :| 0 <= len <= length - offt;
      }
      Put(iov, i, Iov(if len == 0 then NO_BASE else offt, len), offt);
      offt := offt + len;
    }
    assert iov[..iov.Length] == iov[..];
  }

  /** The length of vector i. */
  method ShareLength(dgramSize: nat, n: nat, i: nat, offt: nat, ghost share: nat) returns (len: nat)
    requires i < n <= dgramSize && share == dgramSize / n && offt == i * share
    ensures len >= 1 && offt + len <= dgramSize
    ensures if i < n - 1 then len == share && offt + len == (i + 1) * share
            else offt + len == dgramSize && len < share + n
  {
    Shares(dgramSize, n, i, share);
    if i == n - 1 {
      len := dgramSize - offt;
    } else {
      len := dgramSize / n;
    }
  }

  /** zfut_flooder(): equal vectors, the last one takes the rest; -1 when a vector would be empty. */
  method FlooderSplit(dgramSize: nat, iov: array<Iov>) returns (rc: int)
    modifies iov
    ensures rc == if dgramSize < iov.Length then -1 else 0
    ensures rc == 0 && iov.Length > 0 ==> Partition(iov[..], dgramSize)
    ensures rc == 0 ==> forall k :: 0 <= k < iov.Length ==>
              iov[k].len >= 1 && (k < iov.Length - 1 ==> iov[k].len == dgramSize / iov.Length)
    ensures rc == 0 && iov.Length > 0 ==> iov[iov.Length - 1].len < dgramSize / iov.Length + iov.Length
  {
    var n := iov.Length;
    if dgramSize < n {
      return -1;
    }
    var offt := 0;
    ghost var share := if n > 0 then dgramSize / n else 0;
    for i := 0 to n
      invariant 0 <= offt <= dgramSize && Partition(iov[..i], offt)
      invariant i < n ==> offt == i * share
      invariant i == n > 0 ==> offt == dgramSize && iov[n - 1].len < share + n
      invariant forall k :: 0 <= k < i ==> iov[k].len >= 1 && (k < n - 1 ==> iov[k].len == share)
    {
      var len := ShareLength(dgramSize, n, i, offt, share);
      Put(iov, i, Iov(offt, len), offt);
      offt := offt + len;
    }
    assert iov[..n] == iov[..];
    return 0;
  }

  /** n shares of d / n leave less than n over. */
  lemma Shares(d: nat, n: nat, i: nat, q: nat)
    requires i < n <= d && q == d / n
    ensures q >= 1 && i * q + q == (i + 1) * q <= d
    ensures i == n - 1 ==> q <= d - i * q < q + n
  {
    Quotient(d, n);
    Scaled(i + 1, n, q);
  }

  lemma Quotient(d: nat, n: nat)
    requires 0 < n <= d
    ensures d / n >= 1 && n * (d / n) <= d < n * (d / n) + n
  {
  }

  // ---------------------------------------------------------------- fixed-size chunks

  /** How many vectors zfts_zft_send_func() and zfts_zft_recv_func() use: at least one. */
  function ChunkCount(len: nat): nat {
    len / DATA_MAX + if len % DATA_MAX != 0 || len == 0 then 1 else 0
  }

  lemma ChunkCountIs(len: nat)
    ensures var n := ChunkCount(len); n >= 1 && len <= n * 1400 && (n == 1 || (n - 1) * 1400 < len)
  {
  }

  function Chunk(len: nat, i: nat): Iov {
    Iov(i * DATA_MAX, if len - i * DATA_MAX > DATA_MAX then DATA_MAX else if i * DATA_MAX <= len then len - i * DATA_MAX else 0)
  }

  /** The first n chunks: full ones and, at the end, a shorter one. */
  ghost predicate Chunks(iovs: seq<Iov>, len: nat, n: nat) {
    |iovs| == n && forall i :: 0 <= i < n ==> iovs[i] == Chunk(len, i)
  }

  /** The split of zfts_zft_send_func(). */
  method SendSplit(len: nat) returns (iov: array<Iov>)
    ensures Chunks(iov[..], len, ChunkCount(len)) && Partition(iov[..], len)
  {
    var n := len / DATA_MAX;
    if len % DATA_MAX != 0 || len == 0 {
      n := n + 1;
    }
    ChunkCountIs(len);
    iov := new Iov[n](_ => Iov(NO_BASE, 0));
    var pos := 0;
    for i := 0 to n
      invariant pos == if i < n then i * DATA_MAX else len
      invariant Partition(iov[..i], pos) && forall k :: 0 <= k < i ==> iov[k] == Chunk(len, k)
    {
      var iovLen := len - pos;
      if iovLen > DATA_MAX {
        iovLen := DATA_MAX;
      }
      Put(iov, i, Iov(pos, iovLen), pos);
      pos := pos + iovLen;
    }
    assert iov[..n] == iov[..];
  }

  /** The split of zfts_zft_recv_func() in its zft_recv() mode: it stops as soon as everything is
      covered, and num is how many vectors it then passes on. */
  method RecvSplit(len: nat) returns (iov: array<Iov>, num: nat)
    ensures fresh(iov) && num <= iov.Length
    ensures Chunks(iov[..num], len, ChunkCount(len)) && Partition(iov[..num], len)
  {
    num := len / DATA_MAX;
    if len % DATA_MAX != 0 || len == 0 {
      num := num + 1;
    }
    ChunkCountIs(len);
    iov := new Iov[num](_ => Iov(NO_BASE, 0));
    var pos, i := 0, 0;
    while i < num
      invariant 0 <= i < num == iov.Length == ChunkCount(len) && pos == i * DATA_MAX <= len && fresh(iov)
      invariant Partition(iov[..i], pos) && forall k :: 0 <= k < i ==> iov[k] == Chunk(len, k)
    {
      var iovLen := len - pos;
      if iovLen > DATA_MAX {
        iovLen := DATA_MAX;
      }
      Put(iov, i, Iov(pos, iovLen), pos);
      pos := pos + iovLen;
      if pos == len {
        num := i + 1;
        break;
      }
      i := i + 1;
    }
  }
}
