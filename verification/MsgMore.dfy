/** send_data() of the msg_more test: building an iovec of random lengths with a given total, under
    bounds for its first and last buffers. */
module MsgMore {
  import opened Basics
  import opened Sums

  const MAX_IOVCNT: nat := 10
  const MIN_IOV_SMALL: nat := 1
  const MAX_IOV_SMALL: nat := 1400
  const MIN_IOV_BIG: nat := 1400
  const MAX_IOV_BIG: nat := 4000

  datatype Edge = Any | SmallerMss | LargerMss

  /** A parameter set: big or small total, many buffers or one, and what is asked of the first and of
      the last buffer. */
  datatype Params = Params(big: bool, many: bool, first: Edge, last: Edge)

  const PARAM_SETS: seq<Params> := [
    Params(false, false, Any, Any),
    Params(false, true, Any, Any),
    Params(true, false, Any, Any),
    Params(true, true, Any, Any),
    Params(true, true, SmallerMss, Any),
    Params(true, true, LargerMss, Any),
    Params(true, true, Any, SmallerMss),
    Params(true, true, Any, LargerMss)]

  function EdgeMin(e: Edge, mss: nat): nat { if e == LargerMss then mss * 3 / 2 else 1 }
  function EdgeMax(e: Edge, mss: nat): nat { if e == SmallerMss then mss / 2 else MAX_IOV_BIG }

  /** size_min and size_max. For a single buffer the unsigned iovcnt - 2 wraps around, and the sums come
      out as with -1. */
  function SizeMin(p: Params, iovcnt: nat, mss: nat): nat
    requires mss > 0
  {
    if p.big then
      var needed: int := EdgeMin(p.first, mss) + EdgeMin(p.last, mss) + (iovcnt - 2);
      if needed < MIN_IOV_BIG then MIN_IOV_BIG else needed
    else Max(MIN_IOV_SMALL, iovcnt)
  }

  function SizeMax(p: Params, iovcnt: nat, mss: nat): int {
    if p.big then
      var fits: int := EdgeMax(p.first, mss) + EdgeMax(p.last, mss) + MAX_IOV_BIG * (iovcnt - 2);
      if fits < MAX_IOV_BIG then fits else MAX_IOV_BIG
    else MAX_IOV_SMALL
  }

  /** What the parameters ask of the finished iovec; size is the total drawn for it. */
  ghost predicate Meets(lens: seq<nat>, size: nat, p: Params, iovcnt: nat, mss: nat)
    requires mss > 0
  {
    && |lens| == iovcnt >= 1
    && Sum(lens) == size && SizeMin(p, iovcnt, mss) <= size <= SizeMax(p, iovcnt, mss)
    && EdgeMin(p.first, mss) <= lens[0] && EdgeMin(p.last, mss) <= lens[iovcnt - 1]
    && forall i :: 0 <= i < iovcnt ==> 1 <= lens[i] <= MAX_IOV_BIG
  }

  /** The upper bounds of the first and of the last buffer. */
  ghost predicate EdgesMeet(lens: seq<nat>, p: Params, mss: nat) {
    lens != [] && lens[0] <= EdgeMax(p.first, mss) && lens[|lens| - 1] <= EdgeMax(p.last, mss)
  }

  /** The buffer is not made longer: it is at its bound. */
  predicate Blocked(lens: seq<nat>, i: nat, p: Params, mss: nat)
    requires i < |lens|
  {
    || (i == 0 && lens[i] == EdgeMax(p.first, mss))
    || (i == |lens| - 1 && lens[i] == EdgeMax(p.last, mss))
    || lens[i] == MAX_IOV_BIG
  }

  /** When every buffer is at its bound the largest total is reached: "no space" never happens. */
  lemma BlockedIsFull(lens: seq<nat>, p: Params, mss: nat)
    requires EdgesAreBig(p) && |lens| >= 2 && forall i :: 0 <= i < |lens| ==> Blocked(lens, i, p, mss)
    ensures Sum(lens) >= SizeMax(p, |lens|, mss)
  {
    assert Blocked(lens, 0, p, mss) && Blocked(lens, 1, p, mss);
    SumHas(lens, 0);
    SumHas(lens, 1);
    if |lens| == 2 {
      SumOfTwo(lens[0], lens[1]);
      assert lens == [lens[0], lens[1]];
    }
  }

  /** Only big iovecs have special edges. */
  predicate EdgesAreBig(p: Params) { p.big || (p.first == Any && p.last == Any) }

  datatype Outcome = Built | RangeEmpty | NoSpace | TooBig

  /** rand_range(0, 1) as a fair sequence of draws: after every draw a one comes up some time. */
  ghost predicate Fair(coin: nat -> bool, due: nat -> nat) {
    forall t: nat :: t <= due(t) && coin(due(t))
  }

  /** The starting lengths: the lower bounds. */
  method Start(p: Params, iovcnt: nat, mss: nat) returns (lens: array<nat>, curSize: nat)
    requires mss > 0 && iovcnt >= 2
    ensures fresh(lens) && lens.Length == iovcnt && curSize == Sum(lens[..])
    ensures curSize == EdgeMin(p.first, mss) + EdgeMin(p.last, mss) + iovcnt - 2
    ensures lens[0] == EdgeMin(p.first, mss) && lens[iovcnt - 1] == EdgeMin(p.last, mss)
    ensures forall i :: 0 < i < iovcnt - 1 ==> lens[i] == 1
  {
    lens := new nat[iovcnt](_ => 1);
    SumConst(lens[..], 1);
    SumUpdate(lens[..], 0, EdgeMin(p.first, mss));
    ghost var ones := lens[..];
    lens[0] := EdgeMin(p.first, mss);
    assert lens[..] == ones[0 := EdgeMin(p.first, mss)];
    ghost var one := lens[..];
    SumUpdate(one, iovcnt - 1, EdgeMin(p.last, mss));
    lens[iovcnt - 1] := EdgeMin(p.last, mss);
    assert lens[..] == one[iovcnt - 1 := EdgeMin(p.last, mss)];
    curSize := EdgeMin(p.first, mss) + EdgeMin(p.last, mss) + iovcnt - 2;
  }

  /** Lengths on the way from the lower bounds. */
  ghost predicate Growing(lens: seq<nat>, p: Params, mss: nat) {
    && |lens| >= 2
    && EdgeMin(p.first, mss) <= lens[0] && EdgeMin(p.last, mss) <= lens[|lens| - 1]
    && (forall i :: 0 <= i < |lens| ==> 1 <= lens[i] <= MAX_IOV_BIG)
    && (EdgeMin(p.first, mss) <= EdgeMax(p.first, mss) ==> lens[0] <= EdgeMax(p.first, mss))
    && (EdgeMin(p.last, mss) <= EdgeMax(p.last, mss) ==> lens[|lens| - 1] <= EdgeMax(p.last, mss))
  }

  /** Make buffer i longer by one draw. */
  method Lengthen(lens: array<nat>, i: nat, incr: nat, p: Params, mss: nat)
    requires i < lens.Length && incr <= 1 && Growing(lens[..], p, mss) && !Blocked(lens[..], i, p, mss)
    modifies lens
    ensures Growing(lens[..], p, mss) && Sum(lens[..]) == old(Sum(lens[..])) + incr
    ensures incr == 0 ==> lens[..] == old(lens[..])
  {
    ghost var was := lens[..];
    SumUpdate(was, i, was[i] + incr);
    lens[i] := lens[i] + incr;
    assert lens[..] == was[i := was[i] + incr];
  }

  /** One pass over the buffers, each growing by the next draw unless it is at its bound. The draw
      number target is a one: until it is made, either some draw was a one or t has come nearer to it. */
  method Pass(lens: array<nat>, size: nat, curSize: nat, p: Params, mss: nat, t: nat, coin: nat -> bool, ghost target: nat)
    returns (hasSpace: bool, curSize': nat, t': nat)
    requires t <= target && coin(target) && Growing(lens[..], p, mss) && curSize == Sum(lens[..]) < size
    modifies lens
    ensures Growing(lens[..], p, mss) && curSize <= curSize' == Sum(lens[..]) <= size
    ensures curSize' == curSize ==> t <= t' <= target
    ensures hasSpace ==> curSize' > curSize || t' > t
    ensures !hasSpace ==> curSize' == curSize && forall k :: 0 <= k < lens.Length ==> Blocked(lens[..], k, p, mss)
  {
    hasSpace, curSize', t' := false, curSize, t;
    var i := 0;
    while i < lens.Length
      invariant 0 <= i <= lens.Length
      invariant Growing(lens[..], p, mss) && curSize <= curSize' == Sum(lens[..]) < size
      invariant curSize' == curSize ==> t <= t' <= target
      invariant hasSpace ==> curSize' > curSize || t' > t
      invariant !hasSpace ==> curSize' == curSize && forall k :: 0 <= k < i ==> Blocked(lens[..], k, p, mss)
    {
      if !Blocked(lens[..], i, p, mss) {
        hasSpace := true;
        var incr: nat := if coin(t') then 1 else 0;
        Lengthen(lens, i, incr, p, mss);
        curSize', t' := curSize' + incr, t' + 1;
        if curSize' == size {
          break;
        }
      }
      i := i + 1;
    }
  }

  /** Passes over the buffers until the total is size. */
  method Fill(lens: array<nat>, size: nat, curSize: nat, p: Params, mss: nat, coin: nat -> bool, ghost due: nat -> nat)
    returns (r: Outcome)
    requires Fair(coin, due) && EdgesAreBig(p) && Growing(lens[..], p, mss)
    requires curSize == Sum(lens[..]) <= size <= SizeMax(p, lens.Length, mss)
    modifies lens
    ensures r == Built && Growing(lens[..], p, mss) && Sum(lens[..]) == size
  {
    var cur := curSize;
    var t := 0;
    ghost var target := due(0);
    while cur < size
      invariant Growing(lens[..], p, mss) && cur == Sum(lens[..]) <= size
      invariant t <= target && coin(target)
      decreases size - cur, target - t
    {
      var hasSpace, grown, drawn := Pass(lens, size, cur, p, mss, t, coin, target);
      if !hasSpace {
        BlockedIsFull(lens[..], p, mss);
        assert false;
        return NoSpace;
      }
      if grown > cur {
        target := due(drawn);
      }
      cur, t := grown, drawn;
    }
    if cur > size {
      assert false;
      return TooBig;
    }
    return Built;
  }

  /** The whole construction. The result tells which failure, if any, the test would report. */
  method Build(p: Params, iovcnt: nat, mss: nat, coin: nat -> bool, ghost due: nat -> nat)
    returns (r: Outcome, lens: array<nat>, size: nat)
    requires p in PARAM_SETS && mss > 0 && Fair(coin, due)
    requires if p.many then 2 <= iovcnt <= MAX_IOVCNT else iovcnt == 1
    ensures r == if SizeMin(p, iovcnt, mss) <= SizeMax(p, iovcnt, mss) then Built else RangeEmpty
    ensures r == Built ==> fresh(lens) && Meets(lens[..], size, p, iovcnt, mss)
    ensures r == Built ==> (EdgesMeet(lens[..], p, mss) <==> mss >= 2 || (p.first != SmallerMss && p.last != SmallerMss))
  {
    lens, size := new nat[iovcnt](_ => MAX_IOV_BIG), 0;
    var sizeMin, sizeMax := SizeMin(p, iovcnt, mss), SizeMax(p, iovcnt, mss);
    if sizeMin > sizeMax {
      return RangeEmpty, lens, size;
    }
    size :| sizeMin <= size <= sizeMax by { assert sizeMin <= sizeMin <= sizeMax; }
    if iovcnt == 1 {
      lens[0] := size;
      assert lens[..] == [size];
      SingleMeets(size, p, mss);
      return Built, lens, size;
    }
    var curSize;
    lens, curSize := Start(p, iovcnt, mss);
    r := Fill(lens, size, curSize, p, mss, coin, due);
    GrownMeets(lens[..], size, p, mss);
  }

  lemma SingleMeets(size: nat, p: Params, mss: nat)
    requires p in PARAM_SETS && !p.many && mss > 0 && SizeMin(p, 1, mss) <= size <= SizeMax(p, 1, mss)
    ensures Meets([size], size, p, 1, mss) && EdgesMeet([size], p, mss) && p.first == p.last == Any
  {
    SumOfTwo(size, 0);
  }

  lemma GrownMeets(lens: seq<nat>, size: nat, p: Params, mss: nat)
    requires mss > 0 && Growing(lens, p, mss) && Sum(lens) == size
    requires SizeMin(p, |lens|, mss) <= size <= SizeMax(p, |lens|, mss)
    ensures Meets(lens, size, p, |lens|, mss)
    ensures EdgesMeet(lens, p, mss) <==> mss >= 2 || (p.first != SmallerMss && p.last != SmallerMss)
  {
  }

  /** What the ranges are, in numbers. */
  lemma SizeRange(p: Params, iovcnt: nat, mss: nat)
    requires p in PARAM_SETS && mss > 0 && if p.many then 2 <= iovcnt <= MAX_IOVCNT else iovcnt == 1
    ensures SizeMax(p, iovcnt, mss) == if p.big then 4000 else 1400
    ensures SizeMin(p, iovcnt, mss) ==
            if !p.big then iovcnt
            else if p.first == LargerMss || p.last == LargerMss then Max(1400, mss * 3 / 2 + iovcnt - 1)
            else 1400
  {
  }

  /** What the finished buffers are, in numbers: a buffer that has to be smaller than the MSS has at most half
      of it, one that has to be larger at least three halves, rounded down, and is larger. */
  lemma BuffersAre(lens: seq<nat>, size: nat, p: Params, iovcnt: nat, mss: nat)
    requires p in PARAM_SETS && mss >= 2 && if p.many then 2 <= iovcnt <= MAX_IOVCNT else iovcnt == 1
    requires Meets(lens, size, p, iovcnt, mss) && EdgesMeet(lens, p, mss)
    ensures |lens| == iovcnt && Sum(lens) == size && forall i :: 0 <= i < iovcnt ==> 1 <= lens[i] <= 4000
    ensures if p.big then 1400 <= size <= 4000 else iovcnt <= size <= 1400
    ensures p.first == SmallerMss ==> 2 * lens[0] <= mss
    ensures p.last == SmallerMss ==> 2 * lens[iovcnt - 1] <= mss
    ensures p.first == LargerMss ==> 2 * lens[0] + 1 >= 3 * mss && lens[0] > mss
    ensures p.last == LargerMss ==> 2 * lens[iovcnt - 1] + 1 >= 3 * mss && lens[iovcnt - 1] > mss
  {
    SizeRange(p, iovcnt, mss);
  }

  /** An upper bound is no tighter than that. */
  lemma EdgeRange(mss: nat)
    ensures EdgeMin(SmallerMss, mss) == 1 && mss <= 2 * EdgeMax(SmallerMss, mss) + 1
    ensures 2 * EdgeMin(LargerMss, mss) <= 3 * mss && EdgeMax(LargerMss, mss) == 4000
    ensures EdgeMin(Any, mss) == 1 && EdgeMax(Any, mss) == 4000
  {
  }

  /** An MSS of 1 leaves no room below mss / 2: a first buffer of one byte already breaks its bound. */
  lemma TinyMss(lens: seq<nat>)
    requires lens != [] && lens[0] >= EdgeMin(SmallerMss, 1)
    ensures var p := Params(true, true, SmallerMss, Any);
            p in PARAM_SETS && SizeMin(p, 2, 1) <= SizeMax(p, 2, 1) && !EdgesMeet(lens, p, 1)
  {
    assert PARAM_SETS[4] == Params(true, true, SmallerMss, Any);
  }

  /** When the test gives up before building anything. */
  lemma RangeEmptyWhen(p: Params, iovcnt: nat, mss: nat)
    requires p in PARAM_SETS && mss > 0 && if p.many then 2 <= iovcnt <= MAX_IOVCNT else iovcnt == 1
    ensures SizeMin(p, iovcnt, mss) > SizeMax(p, iovcnt, mss) <==>
            (p.first == LargerMss || p.last == LargerMss) && mss * 3 / 2 + iovcnt - 1 > MAX_IOV_BIG
  {
  }
}
