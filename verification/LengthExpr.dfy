/** parse_length() of the bad_address test: a signed sum of numbers and structure names. */
module LengthExpr {
  import opened Basics

  /** MAX_STR_LEN */
  const MAX_STR_LEN: nat := 256

  predicate IsDigit(c: char) { '0' <= c <= '9' }
  predicate IsAlpha(c: char) { 'a' <= c <= 'z' || 'A' <= c <= 'Z' }
  predicate IsWord(c: char) { IsDigit(c) || IsAlpha(c) || c == '_' }
  predicate IsSpace(c: char) { c == ' ' || c == '\t' || c == '\n' || c == '\r' || c == '\U{0B}' || c == '\U{0C}' }

  function DigitValue(c: char): nat
    requires IsDigit(c)
  {
    c as nat - '0' as nat
  }

  /** atoi() on a token: the number its leading digits make, 0 when there are none. */
  function Atoi(s: string, acc: nat): nat {
    if s == "" || !IsDigit(s[0]) then acc else Atoi(s[1..], 10 * acc + DigitValue(s[0]))
  }

  /** snprintf() into cur_type, which keeps MAX_STR_LEN - 1 characters. */
  function TypeName(token: string): string {
    var s := "struct " + token;
    if |s| < MAX_STR_LEN then s else s[..MAX_STR_LEN - 1]
  }

  /** What a finished token adds, given the sizes of structures. */
  function TokenValue(token: string, sizeOf: string -> int): int {
    if token != "" && IsAlpha(token[0]) then sizeOf(TypeName(token)) else Atoi(token, 0)
  }

  // ---------------------------------------------------------------- what a string means

  function Strip(s: string): string {
    if s == "" then "" else if IsSpace(s[0]) then Strip(s[1..]) else [s[0]] + Strip(s[1..])
  }

  /** The length of the token a string begins with. */
  function WordEnd(t: string): (k: nat)
    ensures k <= |t|
  {
    if t == "" || !IsWord(t[0]) then 0 else 1 + WordEnd(t[1..])
  }

  /** Plus and minus set the sign of what follows; any other separator leaves it. */
  function NextSign(c: char, sign: int): int {
    if c == '-' then -1 else if c == '+' then 1 else sign
  }

  /** The signed sum of the tokens of a string without spaces. */
  function SumOf(t: string, sign: int, sizeOf: string -> int): int
    decreases |t|
  {
    var k := WordEnd(t);
    var value := sign * TokenValue(t[..k], sizeOf);
    if k == |t| then value else value + SumOf(t[k + 1..], NextSign(t[k], sign), sizeOf)
  }

  /** Every token leaves room for its terminator in the buffer. */
  predicate TokensFit(t: string)
    decreases |t|
  {
    var k := WordEnd(t);
    k < MAX_STR_LEN && (k == |t| || TokensFit(t[k + 1..]))
  }

  /** No token fills the buffer exactly, which would leave no room for its terminator. */
  predicate NoExactToken(t: string)
    decreases |t|
  {
    var k := WordEnd(t);
    k != MAX_STR_LEN && (k == |t| || NoExactToken(t[k + 1..]))
  }

  // ---------------------------------------------------------------- the scanner

  ghost predicate AllWord(s: string) { forall i :: 0 <= i < |s| ==> IsWord(s[i]) }

  lemma {:induction false} WordEndIs(word: string, rest: string)
    requires AllWord(word)
    ensures WordEnd(word + rest) == |word| + WordEnd(rest)
  {
    if word == "" {
      assert word + rest == rest;
    } else {
      assert (word + rest)[1..] == word[1..] + rest;
      WordEndIs(word[1..], rest);
    }
  }

  /** A separator ends the token in front of it. */
  lemma TokenEnds(word: string, c: char, rest: string, sign: int, sizeOf: string -> int)
    requires AllWord(word) && !IsWord(c)
    ensures SumOf(word + [c] + rest, sign, sizeOf) ==
            sign * TokenValue(word, sizeOf) + SumOf(rest, NextSign(c, sign), sizeOf)
    ensures TokensFit(word + [c] + rest) <==> |word| < MAX_STR_LEN && TokensFit(rest)
    ensures NoExactToken(word + [c] + rest) <==> |word| != MAX_STR_LEN && NoExactToken(rest)
  {
    var t := word + [c] + rest;
    assert t == word + ([c] + rest);
    WordEndIs(word, [c] + rest);
    assert t[..|word|] == word && t[|word|] == c && t[|word| + 1..] == rest;
  }

  lemma LastToken(word: string, sign: int, sizeOf: string -> int)
    requires AllWord(word)
    ensures SumOf(word, sign, sizeOf) == sign * TokenValue(word, sizeOf)
    ensures TokensFit(word) <==> |word| < MAX_STR_LEN
    ensures NoExactToken(word) <==> |word| != MAX_STR_LEN
  {
    WordEndIs(word, "");
    assert word + "" == word && word[..|word|] == word;
  }

  /** Where the scanner is: what it has added up, and what is still to come: the token collected so far
      in front of the rest of the string. */
  ghost predicate Scanning(s: string, i: nat, word: string, sign: int, result: int, sizeOf: string -> int)
    requires i <= |s|
  {
    var rest := word + Strip(s[i..]);
    && AllWord(word) && |word| <= MAX_STR_LEN
    && SumOf(Strip(s), 1, sizeOf) == result + SumOf(rest, sign, sizeOf)
    && (TokensFit(Strip(s)) <==> TokensFit(rest)) && NoExactToken(rest)
  }

  lemma StripStep(s: string, i: nat)
    requires i < |s|
    ensures Strip(s[i..]) == if IsSpace(s[i]) then Strip(s[i + 1..]) else [s[i]] + Strip(s[i + 1..])
  {
    assert s[i..][1..] == s[i + 1..];
  }

  lemma ScanWordChar(s: string, i: nat, word: string, sign: int, result: int, sizeOf: string -> int)
    requires i < |s| && IsWord(s[i]) && Scanning(s, i, word, sign, result, sizeOf)
    ensures if |word| == MAX_STR_LEN then !TokensFit(Strip(s))
            else Scanning(s, i + 1, word + [s[i]], sign, result, sizeOf)
  {
    var longer, tail := word + [s[i]], Strip(s[i + 1..]);
    StripStep(s, i);
    Assoc(word, [s[i]], tail);
    if |word| == MAX_STR_LEN {
      TokenTooLong(longer, tail);
    }
  }

  lemma TokenTooLong(word: string, tail: string)
    requires AllWord(word) && |word| > MAX_STR_LEN
    ensures !TokensFit(word + tail)
  {
    WordEndIs(word, tail);
  }

  lemma ScanSpace(s: string, i: nat, word: string, sign: int, result: int, sizeOf: string -> int)
    requires i < |s| && IsSpace(s[i]) && Scanning(s, i, word, sign, result, sizeOf)
    ensures Scanning(s, i + 1, word, sign, result, sizeOf)
  {
    StripStep(s, i);
  }

  lemma ScanSeparator(s: string, i: nat, word: string, sign: int, result: int, sizeOf: string -> int)
    requires i < |s| && !IsWord(s[i]) && !IsSpace(s[i]) && Scanning(s, i, word, sign, result, sizeOf)
    ensures |word| < MAX_STR_LEN
    ensures Scanning(s, i + 1, "", NextSign(s[i], sign), result + sign * TokenValue(word, sizeOf), sizeOf)
  {
    var tail := Strip(s[i + 1..]);
    StripStep(s, i);
    Assoc(word, [s[i]], tail);
    TokenEnds(word, s[i], tail, sign, sizeOf);
    assert "" + tail == tail;
  }

  lemma ScanStart(s: string, sizeOf: string -> int)
    requires NoExactToken(Strip(s))
    ensures Scanning(s, 0, "", 1, 0, sizeOf)
  {
    assert s[0..] == s && "" + Strip(s) == Strip(s);
  }

  lemma ScanEnd(s: string, word: string, sign: int, result: int, sizeOf: string -> int)
    requires Scanning(s, |s|, word, sign, result, sizeOf)
    ensures |word| < MAX_STR_LEN && TokensFit(Strip(s))
    ensures SumOf(Strip(s), 1, sizeOf) == result + sign * TokenValue(word, sizeOf)
  {
    assert word + Strip(s[|s|..]) == word;
    LastToken(word, sign, sizeOf);
  }

  /** Terminate the j characters in the buffer and add up what they stand for. */
  method Finish(curStr: array<char>, j: nat, sign: int, result: int, sizeOf: string -> int) returns (r: int)
    requires j < curStr.Length
    modifies curStr
    ensures r == result + sign * TokenValue(old(curStr[..j]), sizeOf)
  {
    curStr[j] := '\0';
    var token := curStr[..j];
    if IsAlpha(curStr[0]) {
      r := result + sign * sizeOf(TypeName(token));
    } else {
      r := result + sign * Atoi(token, 0);
    }
  }

  /** The sign after a separator. */
  method ReadSign(c: char, sign: int) returns (r: int)
    ensures r == NextSign(c, sign)
  {
    r := sign;
    if c == '-' {
      r := -1;
    } else if c == '+' {
      r := 1;
    }
  }

  /** One character; not ok is the TEST_FAIL for a token that is too long. */
  method ScanChar(lenStr: string, i: nat, curStr: array<char>, j: nat, sign: int, result: int, sizeOf: string -> int)
    returns (ok: bool, j': nat, sign': int, result': int)
    requires i < |lenStr| && j <= curStr.Length == MAX_STR_LEN
    requires Scanning(lenStr, i, curStr[..j], sign, result, sizeOf)
    modifies curStr
    ensures !ok ==> !TokensFit(Strip(lenStr))
    ensures ok ==> j' <= MAX_STR_LEN && Scanning(lenStr, i + 1, curStr[..j'], sign', result', sizeOf)
  {
    var c := lenStr[i];
    ghost var word := curStr[..j];
    ok, j', sign', result' := true, j, sign, result;
    if IsWord(c) {
      ScanWordChar(lenStr, i, word, sign, result, sizeOf);
      if j == MAX_STR_LEN {
        ok := false;
        return;
      }
      curStr[j] := c;
      j' := j + 1;
      assert curStr[..j'] == word + [c];
    } else if !IsSpace(c) {
      ScanSeparator(lenStr, i, word, sign, result, sizeOf);
      result' := Finish(curStr, j, sign, result, sizeOf);
      j' := 0;
      assert curStr[..0] == "";
      sign' := ReadSign(c, sign);
    } else {
      ScanSpace(lenStr, i, word, sign, result, sizeOf);
    }
  }

  /** parse_length(); None is the TEST_FAIL for a token that is too long. */
  method ParseLength(lenStr: string, sizeOf: string -> int) returns (r: Option<int>)
    requires NoExactToken(Strip(lenStr))
    ensures r == if TokensFit(Strip(lenStr)) then Some(SumOf(Strip(lenStr), 1, sizeOf)) else None
  {
    var curStr := new char[MAX_STR_LEN];
    var result, sign, j: nat := 0, 1, 0;
    ScanStart(lenStr, sizeOf);
    assert curStr[..0] == "";
    for i := 0 to |lenStr|
      invariant j <= MAX_STR_LEN && Scanning(lenStr, i, curStr[..j], sign, result, sizeOf)
    {
      var ok;
      ok, j, sign, result := ScanChar(lenStr, i, curStr, j, sign, result, sizeOf);
      if !ok {
        return None;
      }
    }
    ScanEnd(lenStr, curStr[..j], sign, result, sizeOf);
    result := Finish(curStr, j, sign, result, sizeOf);
    return Some(result);
  }

  // ---------------------------------------------------------------- signed sums

  datatype Term = Number(n: nat) | Name(id: string)

  /** A sum: every term with the sign in front of it; the first sign may be left out when it is a plus. */
  datatype Signed = Signed(minus: bool, term: Term)

  function Digit(d: nat): char
    requires d < 10
  {
    ('0' as nat + d) as char
  }

  function Digits(n: nat): string {
    if n < 10 then [Digit(n)] else Digits(n / 10) + [Digit(n % 10)]
  }

  function PrintTerm(t: Term): string { if t.Number? then Digits(t.n) else t.id }

  /** Every term behind its sign. */
  function PrintSigned(terms: seq<Signed>): string {
    if terms == [] then ""
    else [if terms[0].minus then '-' else '+'] + PrintTerm(terms[0].term) + PrintSigned(terms[1..])
  }

  /** Two ways to print a sum: with a sign in front, or, when that is a plus, without. */
  ghost predicate Prints(t: string, terms: seq<Signed>) {
    || t == PrintSigned(terms)
    || (terms != [] && !terms[0].minus && t == PrintTerm(terms[0].term) + PrintSigned(terms[1..]))
  }

  /** What a term is worth when a name stands for size(name). */
  function Worth(t: Term, size: string -> int): int {
    match t
    case Number(n) => n
    case Name(id) => size(id)
  }

  function Value(terms: seq<Signed>, size: string -> int): int {
    if terms == [] then 0
    else
      var v := Worth(terms[0].term, size);
      (if terms[0].minus then -v else v) + Value(terms[1..], size)
  }

  /** A name stands for the size of the structure of that name. */
  function FullName(sizeOf: string -> int): string -> int { id => sizeOf("struct " + id) }

  /** What it is worth to the scanner: the size that is looked up, if it begins with a letter, else 0. */
  function ReadName(sizeOf: string -> int): string -> int {
    id => if id != "" && IsAlpha(id[0]) then sizeOf(TypeName(id)) else 0
  }

  /** Names are identifiers. */
  ghost predicate IsTerm(t: Term) {
    t.Name? ==> t.id != "" && !IsDigit(t.id[0]) && AllWord(t.id)
  }

  /** The token leaves room for its terminator. */
  predicate Fits(t: Term) { |PrintTerm(t)| < MAX_STR_LEN }

  ghost predicate Printable(terms: seq<Signed>) {
    forall t :: t in terms ==> IsTerm(t.term) && Fits(t.term)
  }

  lemma {:induction false} DigitsAreDigits(n: nat)
    ensures Digits(n) != "" && forall i :: 0 <= i < |Digits(n)| ==> IsDigit(Digits(n)[i])
  {
    if n >= 10 {
      DigitsAreDigits(n / 10);
    }
  }

  lemma {:induction false} AtoiLast(s: string, c: char, acc: nat)
    requires IsDigit(c) && forall i :: 0 <= i < |s| ==> IsDigit(s[i])
    ensures Atoi(s + [c], acc) == 10 * Atoi(s, acc) + DigitValue(c)
  {
    if s != "" {
      assert (s + [c])[1..] == s[1..] + [c];
      AtoiLast(s[1..], c, 10 * acc + DigitValue(s[0]));
    } else {
      assert s + [c] == [c] && [c][1..] == "";
    }
  }

  lemma {:induction false} AtoiOfDigits(n: nat)
    ensures Atoi(Digits(n), 0) == n
  {
    if n < 10 {
      AtoiLast("", Digit(n), 0);
      assert "" + [Digit(n)] == [Digit(n)];
    } else {
      AtoiOfDigits(n / 10);
      DigitsAreDigits(n / 10);
      AtoiLast(Digits(n / 10), Digit(n % 10), 0);
    }
  }

  /** Reading a number stops at the first character that is no digit. */
  lemma {:induction false} AtoiStops(s: string, rest: string, acc: nat)
    requires rest == "" || !IsDigit(rest[0])
    requires forall i :: 0 <= i < |s| ==> IsDigit(s[i])
    ensures Atoi(s + rest, acc) == Atoi(s, acc)
  {
    if s == "" {
      assert s + rest == rest;
    } else {
      assert (s + rest)[1..] == s[1..] + rest;
      AtoiStops(s[1..], rest, 10 * acc + DigitValue(s[0]));
    }
  }

  /** So a token that begins with a number is worth that number. */
  lemma NumberThenLetters(n: nat, rest: string, sizeOf: string -> int)
    requires rest == "" || !IsDigit(rest[0])
    ensures TokenValue(Digits(n) + rest, sizeOf) == n
  {
    DigitsAreDigits(n);
    AtoiStops(Digits(n), rest, 0);
    AtoiOfDigits(n);
  }

  /** A separator other than plus and minus ends a token and leaves the sign as it is. */
  lemma OtherSeparators(word: string, c: char, rest: string, sign: int, sizeOf: string -> int)
    requires AllWord(word) && !IsWord(c) && c != '+' && c != '-'
    ensures SumOf(word + [c] + rest, sign, sizeOf) == sign * TokenValue(word, sizeOf) + SumOf(rest, sign, sizeOf)
  {
    TokenEnds(word, c, rest, sign, sizeOf);
  }

  lemma TermToken(t: Term, sizeOf: string -> int)
    requires IsTerm(t)
    ensures AllWord(PrintTerm(t))
    ensures TokenValue(PrintTerm(t), sizeOf) == Worth(t, ReadName(sizeOf))
  {
    if t.Number? {
      DigitsAreDigits(t.n);
      AtoiOfDigits(t.n);
    }
  }

  /** The tokens of a printed sum are its terms, so whether they fit is a matter of the terms. */
  lemma {:induction false} TokenLengths(word: string, terms: seq<Signed>)
    requires AllWord(word) && forall t :: t in terms ==> IsTerm(t.term)
    ensures TokensFit(word + PrintSigned(terms)) <==> |word| < MAX_STR_LEN && forall t :: t in terms ==> Fits(t.term)
    ensures NoExactToken(word + PrintSigned(terms)) <==>
            |word| != MAX_STR_LEN && forall t :: t in terms ==> |PrintTerm(t.term)| != MAX_STR_LEN
    decreases |terms|
  {
    if terms == [] {
      assert word + "" == word;
      LastToken(word, 1, _ => 0);
    } else {
      var head, c := terms[0], if terms[0].minus then '-' else '+';
      var rest := PrintTerm(head.term) + PrintSigned(terms[1..]);
      Assoc([c], PrintTerm(head.term), PrintSigned(terms[1..]));
      Assoc(word, [c], rest);
      TokenEnds(word, c, rest, 1, _ => 0);
      TermToken(head.term, _ => 0);
      TokenLengths(PrintTerm(head.term), terms[1..]);
      assert terms == [head] + terms[1..];
    }
  }

  /** A token in front of a printed sum: it counts with the sign in force, the rest with its own signs. */
  lemma {:induction false} TokenAndSum(word: string, terms: seq<Signed>, sign: int, sizeOf: string -> int)
    requires AllWord(word) && forall t :: t in terms ==> IsTerm(t.term)
    ensures SumOf(word + PrintSigned(terms), sign, sizeOf) == sign * TokenValue(word, sizeOf) + Value(terms, ReadName(sizeOf))
    decreases |terms|
  {
    if terms == [] {
      assert word + "" == word;
      LastToken(word, sign, sizeOf);
    } else {
      var head, c := terms[0], if terms[0].minus then '-' else '+';
      var rest := PrintTerm(head.term) + PrintSigned(terms[1..]);
      Assoc([c], PrintTerm(head.term), PrintSigned(terms[1..]));
      Assoc(word, [c], rest);
      TokenEnds(word, c, rest, sign, sizeOf);
      TermToken(head.term, sizeOf);
      TokenAndSum(PrintTerm(head.term), terms[1..], NextSign(c, sign), sizeOf);
    }
  }

  /** Reading back a printed sum gives the sum of its terms as the scanner takes them, wherever spaces were
      put into the string and for every assignment of sizes to names. It fails exactly when a token is too
      long; one that fills the buffer exactly is outside what ParseLength describes. */
  lemma SumReadBack(s: string, terms: seq<Signed>, sizeOf: string -> int)
    requires Prints(Strip(s), terms) && forall t :: t in terms ==> IsTerm(t.term)
    ensures NoExactToken(Strip(s)) <==> forall t :: t in terms ==> |PrintTerm(t.term)| != MAX_STR_LEN
    ensures TokensFit(Strip(s)) <==> forall t :: t in terms ==> Fits(t.term)
    ensures SumOf(Strip(s), 1, sizeOf) == Value(terms, ReadName(sizeOf))
  {
    if Strip(s) == PrintSigned(terms) {
      assert "" + PrintSigned(terms) == PrintSigned(terms);
      TokenAndSum("", terms, 1, sizeOf);
    } else {
      TermToken(terms[0].term, sizeOf);
      TokenAndSum(PrintTerm(terms[0].term), terms[1..], 1, sizeOf);
    }
    SumTokens(Strip(s), terms);
  }

  lemma SumTokens(t: string, terms: seq<Signed>)
    requires Prints(t, terms) && forall t :: t in terms ==> IsTerm(t.term)
    ensures NoExactToken(t) <==> forall t :: t in terms ==> |PrintTerm(t.term)| != MAX_STR_LEN
    ensures TokensFit(t) <==> forall t :: t in terms ==> Fits(t.term)
  {
    if t == PrintSigned(terms) {
      assert "" + PrintSigned(terms) == PrintSigned(terms);
      TokenLengths("", terms);
    } else {
      TermToken(terms[0].term, _ => 0);
      TokenLengths(PrintTerm(terms[0].term), terms[1..]);
      assert terms == [terms[0]] + terms[1..];
    }
  }

  // ---------------------------------------------------------------- names that are lost

  /** "struct " and the name do not fit cur_type. */
  predicate IsLong(id: string) { |id| + 7 >= MAX_STR_LEN }

  /** The size of the structure of that name is not looked up: it begins with an underscore, or is cut. */
  predicate IsLost(id: string) { id == "" || !IsAlpha(id[0]) || IsLong(id) }

  lemma LongNamesAreCut(id: string)
    ensures IsLong(id) <==> TypeName(id) != "struct " + id
    ensures TypeName(id) <= "struct " + id && |TypeName(id)| == if IsLong(id) then 255 else |id| + 7
    ensures |TypeName(id)| < MAX_STR_LEN && (id != "" ==> |TypeName(id)| > 7 && TypeName(id)[7] == id[0])
  {
    assert |"struct " + id| == |id| + 7;
    assert id != "" ==> ("struct " + id)[7] == id[0];
  }

  /** How often a name counts, with its signs. */
  function Net(terms: seq<Signed>, id: string): int {
    if terms == [] then 0
    else
      var n := if terms[0].term == Name(id) then 1 else 0;
      (if terms[0].minus then -n else n) + Net(terms[1..], id)
  }

  /** The terms other than the name. */
  function Others(terms: seq<Signed>, id: string): seq<Signed> {
    if terms == [] then []
    else if terms[0].term == Name(id) then Others(terms[1..], id)
    else [terms[0]] + Others(terms[1..], id)
  }

  lemma {:induction false} OthersValue(terms: seq<Signed>, id: string, size: string -> int)
    ensures Value(terms, size) == Value(Others(terms, id), size) + Net(terms, id) * size(id)
  {
    if terms != [] {
      OthersValue(terms[1..], id, size);
      var n := Net(terms[1..], id);
      assert (n + 1) * size(id) == n * size(id) + size(id) && (n - 1) * size(id) == n * size(id) - size(id);
    }
  }

  lemma {:induction false} OthersNet(terms: seq<Signed>, id: string, other: string)
    ensures Net(Others(terms, id), other) == if other == id then 0 else Net(terms, other)
  {
    if terms != [] {
      OthersNet(terms[1..], id, other);
    }
  }

  lemma {:induction false} OthersShorter(terms: seq<Signed>, id: string, k: nat)
    requires k < |terms| && terms[k].term == Name(id)
    ensures |Others(terms, id)| < |terms|
  {
    OthersLength(terms[1..], id);
    if k > 0 {
      OthersShorter(terms[1..], id, k - 1);
    }
  }

  lemma {:induction false} OthersLength(terms: seq<Signed>, id: string)
    ensures |Others(terms, id)| <= |terms|
  {
    if terms != [] {
      OthersLength(terms[1..], id);
    }
  }

  lemma {:induction false} SameWorth(terms: seq<Signed>, a: string -> int, b: string -> int)
    requires forall k :: 0 <= k < |terms| ==> Worth(terms[k].term, a) == Worth(terms[k].term, b)
    ensures Value(terms, a) == Value(terms, b)
  {
    if terms != [] {
      assert forall k :: 0 <= k < |terms| - 1 ==> terms[1..][k] == terms[k + 1];
      SameWorth(terms[1..], a, b);
    }
  }

  /** When every lost name cancels out, the sum is read right. */
  lemma {:induction false} LostNamesCancel(terms: seq<Signed>, sizeOf: string -> int)
    requires forall id :: IsLost(id) ==> Net(terms, id) == 0
    ensures Value(terms, ReadName(sizeOf)) == Value(terms, FullName(sizeOf))
    decreases |terms|
  {
    if k :| 0 <= k < |terms| && terms[k].term.Name? && IsLost(terms[k].term.id) {
      var id := terms[k].term.id;
      var rest := Others(terms, id);
      OthersShorter(terms, id, k);
      forall other | IsLost(other)
        ensures Net(rest, other) == 0
      {
        OthersNet(terms, id, other);
      }
      LostNamesCancel(rest, sizeOf);
      OthersValue(terms, id, ReadName(sizeOf));
      OthersValue(terms, id, FullName(sizeOf));
    } else {
      forall k | 0 <= k < |terms|
        ensures Worth(terms[k].term, ReadName(sizeOf)) == Worth(terms[k].term, FullName(sizeOf))
      {
        if terms[k].term.Name? {
          LongNamesAreCut(terms[k].term.id);
        }
      }
      SameWorth(terms, ReadName(sizeOf), FullName(sizeOf));
    }
  }

  /** Only the structure with the full name of id has a size. */
  function Only(id: string): string -> int { t => if t == "struct " + id then 1 else 0 }

  /** Nothing is looked up under the full name of a lost name. */
  lemma NeverLookedUp(id: string, name: string)
    requires IsLost(id)
    ensures ReadName(Only(id))(name) == 0
    ensures FullName(Only(id))(name) == if name == id then 1 else 0
  {
    LongNamesAreCut(id);
    LongNamesAreCut(name);
    assert |"struct " + id| == |id| + 7 && (id != "" ==> ("struct " + id)[7] == id[0]);
    assert ("struct " + name)[7..] == name && ("struct " + id)[7..] == id;
  }

  /** So its size tells how often a lost name counts. */
  lemma {:induction false} LostNameCounts(terms: seq<Signed>, id: string)
    requires IsLost(id)
    ensures Value(terms, FullName(Only(id))) == Value(terms, ReadName(Only(id))) + Net(terms, id)
  {
    if terms != [] {
      LostNameCounts(terms[1..], id);
      if terms[0].term.Name? {
        NeverLookedUp(id, terms[0].term.id);
      }
    }
  }

  /** The round trip, and exactly when it holds: a printed sum is read as its value for every assignment of
      sizes to names if and only if every name that begins with an underscore or has 249 characters or more
      cancels out. */
  lemma SumRoundTrip(s: string, terms: seq<Signed>)
    requires Prints(Strip(s), terms) && Printable(terms)
    ensures NoExactToken(Strip(s)) && TokensFit(Strip(s))
    ensures (forall sizeOf :: SumOf(Strip(s), 1, sizeOf) == Value(terms, FullName(sizeOf))) <==>
            (forall id :: IsLost(id) ==> Net(terms, id) == 0)
  {
    SumReadBack(s, terms, _ => 0);
    if forall id :: IsLost(id) ==> Net(terms, id) == 0 {
      forall sizeOf
        ensures SumOf(Strip(s), 1, sizeOf) == Value(terms, FullName(sizeOf))
      {
        SumReadBack(s, terms, sizeOf);
        LostNamesCancel(terms, sizeOf);
      }
    } else {
      var id :| IsLost(id) && Net(terms, id) != 0;
      SumReadBack(s, terms, Only(id));
      LostNameCounts(terms, id);
    }
  }

  /** A single name is read right exactly when it begins with a letter and fits the buffer together with
      "struct ". */
  lemma NameRoundTrip(id: string)
    requires IsTerm(Name(id)) && Fits(Name(id))
    ensures (forall sizeOf :: SumOf(id, 1, sizeOf) == FullName(sizeOf)(id)) <==> IsAlpha(id[0]) && |id| + 7 < MAX_STR_LEN
  {
    forall sizeOf: string -> int
      ensures SumOf(id, 1, sizeOf) == ReadName(sizeOf)(id)
    {
      LastToken(id, 1, sizeOf);
      TermToken(Name(id), sizeOf);
    }
    LongNamesAreCut(id);
    if IsLost(id) {
      NeverLookedUp(id, id);
      assert SumOf(id, 1, Only(id)) != FullName(Only(id))(id);
    }
  }
}
