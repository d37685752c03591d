/** Splitting and joining strings at a separator character. */
module Strings {

  /** No ch among the characters of s from a up to b. */
  ghost predicate Without(s: string, ch: char, a: nat, b: nat) {
    a <= b <= |s| && forall m :: a <= m < b ==> s[m] != ch
  }

  /** The index of the first sep in s from a on, or the length of s. */
  function FindFrom(s: string, sep: char, a: nat): (k: nat)
    requires a <= |s|
    ensures a <= k <= |s|
    decreases |s| - a
  {
    if a == |s| || s[a] == sep then a else FindFrom(s, sep, a + 1)
  }

  function Find(s: string, sep: char): (k: nat)
    ensures k <= |s|
  {
    FindFrom(s, sep, 0)
  }

  lemma {:induction false} FindIs(s: string, sep: char, a: nat)
    requires a <= |s|
    ensures var k := FindFrom(s, sep, a); Without(s, sep, a, k) && (k < |s| ==> s[k] == sep)
    decreases |s| - a
  {
    if a < |s| && s[a] != sep {
      FindIs(s, sep, a + 1);
    }
  }

  lemma {:induction false} FindUnique(s: string, sep: char, a: nat, k: nat)
    requires Without(s, sep, a, k) && (k < |s| ==> s[k] == sep)
    ensures FindFrom(s, sep, a) == k
    decreases |s| - a
  {
    if a < k {
      FindUnique(s, sep, a + 1, k);
    }
  }

  /** The components of s from a on, between separators; always at least one. */
  function SplitFrom(s: string, sep: char, a: nat): (r: seq<string>)
    requires a <= |s|
    ensures |r| >= 1
    decreases |s| - a
  {
    var e := FindFrom(s, sep, a);
    if e == |s| then [s[a..e]] else [s[a..e]] + SplitFrom(s, sep, e + 1)
  }

  function Split(s: string, sep: char): (r: seq<string>)
    ensures |r| >= 1
  {
    SplitFrom(s, sep, 0)
  }

  function Join(parts: seq<string>, sep: char): string {
    if parts == [] then "" else if |parts| == 1 then parts[0] else parts[0] + [sep] + Join(parts[1..], sep)
  }

  lemma {:induction false} FindShift(p: string, t: string, sep: char, a: nat)
    requires a <= |t|
    ensures FindFrom(p + t, sep, |p| + a) == |p| + FindFrom(t, sep, a)
    decreases |t| - a
  {
    if a < |t| && t[a] != sep {
      FindShift(p, t, sep, a + 1);
    }
  }

  /** Splitting does not depend on what stands in front. */
  lemma {:induction false} SplitShift(p: string, t: string, sep: char, a: nat)
    requires a <= |t|
    ensures SplitFrom(p + t, sep, |p| + a) == SplitFrom(t, sep, a)
    decreases |t| - a
  {
    FindShift(p, t, sep, a);
    var e := FindFrom(t, sep, a);
    SliceShift(p, t, a, e);
    var s := p + t;
    if e < |t| {
      SplitShift(p, t, sep, e + 1);
    }
    SplitUnfold(s, sep, |p| + a);
    SplitUnfold(t, sep, a);
  }

  lemma SplitUnfold(s: string, sep: char, a: nat)
    requires a <= |s|
    ensures var e := FindFrom(s, sep, a);
            SplitFrom(s, sep, a) == if e == |s| then [s[a..e]] else [s[a..e]] + SplitFrom(s, sep, e + 1)
  {
  }

  lemma SliceShift(p: string, t: string, a: nat, e: nat)
    requires a <= e <= |t|
    ensures (p + t)[|p| + a..|p| + e] == t[a..e]
  {
  }

  /** Splitting at the first separator. */
  lemma SplitAt(head: string, tail: string, sep: char)
    requires sep !in head
    ensures Split(head + [sep] + tail, sep) == [head] + Split(tail, sep)
  {
    var s := head + [sep] + tail;
    FindUnique(s, sep, 0, |head|);
    assert s[0..|head|] == head;
    SplitShift(head + [sep], tail, sep, 0);
  }

  lemma {:induction false} SplitJoin(parts: seq<string>, sep: char)
    requires parts != [] && forall c :: c in parts ==> sep !in c
    ensures Split(Join(parts, sep), sep) == parts
  {
    if |parts| == 1 {
      SplitSingle(parts[0], sep);
    } else {
      SplitJoin(parts[1..], sep);
      SplitAt(parts[0], Join(parts[1..], sep), sep);
    }
  }

  lemma SplitSingle(c: string, sep: char)
    requires sep !in c
    ensures Split(c, sep) == [c]
  {
    FindUnique(c, sep, 0, |c|);
    assert c[0..|c|] == c;
  }

  /** The number of separators before position i. */
  function Seps(s: string, sep: char, i: nat): nat
    requires i <= |s|
  {
    if i == 0 then 0 else Seps(s, sep, i - 1) + if s[i - 1] == sep then 1 else 0
  }

  lemma {:induction false} NoSeps(s: string, sep: char, a: nat, i: nat)
    requires Without(s, sep, a, i)
    ensures Seps(s, sep, i) == Seps(s, sep, a)
  {
    if i > a {
      NoSeps(s, sep, a, i - 1);
    }
  }

  lemma {:induction false} SepsMonotone(s: string, sep: char, a: nat, i: nat)
    requires a <= i <= |s|
    ensures Seps(s, sep, a) <= Seps(s, sep, i)
  {
    if a < i {
      SepsMonotone(s, sep, a, i - 1);
    }
  }

  /** A scanner that went over s[..i] is in component k, which begins at start. */
  ghost predicate InComponent(s: string, sep: char, k: nat, start: nat, i: nat) {
    Without(s, sep, start, i) && (start == 0 || s[start - 1] == sep) && k == Seps(s, sep, i)
  }

  /** The component a scanner ends at i, counted from a component that begins at a. */
  lemma {:induction false} ComponentFrom(s: string, sep: char, a: nat, start: nat, i: nat, k: nat)
    requires a <= start && Without(s, sep, start, i) && (start == a || s[start - 1] == sep)
    requires (i == |s| || s[i] == sep) && k + Seps(s, sep, a) == Seps(s, sep, i)
    ensures k < |SplitFrom(s, sep, a)| && SplitFrom(s, sep, a)[k] == s[start..i]
    ensures if i == |s| then |SplitFrom(s, sep, a)| == k + 1 else |SplitFrom(s, sep, a)| > k + 1
    decreases |s| - a
  {
    var e := FindFrom(s, sep, a);
    FindIs(s, sep, a);
    NoSeps(s, sep, a, e);
    if start == a {
      FindUnique(s, sep, a, i);
    } else {
      SepsMonotone(s, sep, e + 1, i);
      ComponentFrom(s, sep, e + 1, start, i, k - 1);
    }
  }

  /** At the end of a component. */
  lemma ComponentEnds(s: string, sep: char, k: nat, start: nat, i: nat)
    requires InComponent(s, sep, k, start, i) && (i == |s| || s[i] == sep)
    ensures k < |Split(s, sep)| && Split(s, sep)[k] == s[start..i]
    ensures if i == |s| then |Split(s, sep)| == k + 1 else |Split(s, sep)| > k + 1
  {
    ComponentFrom(s, sep, 0, start, i, k);
  }

  /** As many components as separators, plus one. */
  lemma SplitCount(s: string, sep: char)
    ensures |Split(s, sep)| == Seps(s, sep, |s|) + 1
  {
    var start: nat := |s|;
    while start > 0 && s[start - 1] != sep
      invariant start <= |s| && Without(s, sep, start, |s|)
    {
      start := start - 1;
    }
    ComponentEnds(s, sep, Seps(s, sep, |s|), start, |s|);
  }

  /** s[dot..i] is what follows the last dot of s[start..i]. */
  ghost predicate AfterDot(s: string, start: nat, dot: nat, i: nat) {
    start <= dot && Without(s, '.', dot, i) && (dot == start || s[dot - 1] == '.')
  }

  /** One character further. */
  lemma ComponentStep(s: string, sep: char, k: nat, start: nat, i: nat)
    requires InComponent(s, sep, k, start, i) && i < |s|
    ensures s[i] == sep ==> InComponent(s, sep, k + 1, i + 1, i + 1)
    ensures s[i] != sep ==> InComponent(s, sep, k, start, i + 1)
    ensures s[start..i + 1] == s[start..i] + [s[i]]
  {
  }

  lemma DotStep(s: string, start: nat, dot: nat, i: nat)
    requires AfterDot(s, start, dot, i) && i < |s|
    ensures s[i] == '.' ==> AfterDot(s, start, i + 1, i + 1)
    ensures s[i] != '.' ==> AfterDot(s, start, dot, i + 1)
    ensures AfterDot(s, i + 1, i + 1, i + 1)
    ensures s[dot..i + 1] == s[dot..i] + [s[i]]
  {
  }

  /** The position behind the last dot before i, or 0. */
  function LastDot(c: string, i: nat): (d: nat)
    requires i <= |c|
    ensures d <= i
  {
    if i == 0 then 0 else if c[i - 1] == '.' then i else LastDot(c, i - 1)
  }

  /** What follows the last dot: a leading zocket type is skipped. */
  function LastPiece(c: string): string { c[LastDot(c, |c|)..] }

  lemma {:induction false} LastDotIs(c: string, d: nat, i: nat)
    requires d <= i <= |c| && Without(c, '.', d, i) && (d == 0 || c[d - 1] == '.')
    ensures LastDot(c, i) == d
  {
    if i > d {
      LastDotIs(c, d, i - 1);
    }
  }

  lemma AfterDotIsLastPiece(s: string, start: nat, dot: nat, i: nat)
    requires AfterDot(s, start, dot, i)
    ensures LastPiece(s[start..i]) == s[dot..i]
  {
    LastDotIs(s[start..i], dot - start, i - start);
    assert s[start..i][dot - start..] == s[dot..i];
  }
}
