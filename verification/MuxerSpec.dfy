/** The two scanners that read a muxer specification such as "zftl.in,zft-act.in_out": one takes the
    zocket types out of it, the other the events. */
module MuxerSpec {
  import opened Basics
  import opened Strings
  import opened EventChecker

  const NUL: char := '\0'

  /** MAX_SUBSTR_LEN and MAX_EVT_STR_LEN */
  const TYPE_BUF := 100
  const EVT_BUF := 1000

  datatype ZType = Urx | Utx | Zftl | ZftAct | ZftPas | Unknown

  /** zfts_str2zocket_type() */
  function Str2Type(s: string): ZType {
    match s
    case "urx" => Urx
    case "utx" => Utx
    case "zftl" => Zftl
    case "zft" => ZftAct
    case "zft-act" => ZftAct
    case "zft-pas" => ZftPas
    case _ => Unknown
  }

  predicate IsZft(t: ZType) { t == ZftAct || t == ZftPas }

  /** The parts of zfts_mzocket the scanners fill in. */
  datatype Mzocket = Mzocket(ztype: ZType, exp: Mask)

  // ---------------------------------------------------------------- what the strings mean

  function Components(spec: string): seq<string> {
    if spec == "" then [] else Split(spec, ',')
  }

  /** The type is what comes before the first dot of a component. */
  function TypeOf(c: string): ZType { Str2Type(c[..Find(c, '.')]) }

  function Lower(c: char): char {
    if 'A' <= c <= 'Z' then c - 'A' + 'a' else c
  }

  function LowerCase(s: string): (r: string)
    ensures |r| == |s|
  {
    if s == "" then "" else [Lower(s[0])] + LowerCase(s[1..])
  }

  function EvtMask(name: string): Option<Mask> {
    match LowerCase(name)
    case "in" => Some({In})
    case "out" => Some({Out})
    case "err" => Some({Err})
    case "hup" => Some({Hup})
    case "all" => Some({In, Out, Err, Hup})
    case _ => None
  }

  function Union(a: Option<Mask>, b: Option<Mask>): Option<Mask> {
    if a.Some? && b.Some? then Some(a.value + b.value) else None
  }

  /** The union of the named events; None when one of the names is unknown. */
  function MaskOf(names: seq<string>): Option<Mask> {
    if names == [] then Some({}) else Union(EvtMask(LastPiece(names[0])), MaskOf(names[1..]))
  }

  function EventsOf(c: string): Option<Mask> { MaskOf(Split(c, '_')) }

  // ---------------------------------------------------------------- C strings

  /** The C string at the start of a character buffer. */
  function CStr(buf: seq<char>): string { buf[..Find(buf, NUL)] }

  function At(s: string, i: nat): char
    requires i <= |s|
  {
    if i == |s| then NUL else s[i]
  }

  lemma CStrIs(buf: seq<char>, c: string)
    requires NUL !in c && |c| < |buf| && buf[..|c|] == c && buf[|c|] == NUL
    ensures CStr(buf) == c
  {
    FindUnique(buf, NUL, 0, |c|);
  }

  /** Copying a component with its dots turned into terminators keeps what is before the first dot. */
  lemma CStrBeforeDot(buf: seq<char>, c: string)
    requires NUL !in c && |c| < |buf| && buf[|c|] == NUL && Mirrors(buf, c)
    ensures CStr(buf) == c[..Find(c, '.')]
  {
    var k := Find(c, '.');
    FindIs(c, '.', 0);
    assert forall m :: 0 <= m < k ==> buf[..k][m] == c[m] && c[m] in c;
    FindUnique(buf, NUL, 0, k);
    assert buf[..k] == c[..k];
  }

  /** The buffer starts with c, its dots turned into terminators. */
  ghost predicate Mirrors(buf: seq<char>, c: string) {
    |c| <= |buf| && forall m :: 0 <= m < |c| ==> buf[m] == if c[m] == '.' then NUL else c[m]
  }

  // ---------------------------------------------------------------- the scanners

  /** Append one character to the j characters collected so far. */
  method Append(buf: array<char>, j: nat, c: char)
    requires j < buf.Length
    modifies buf
    ensures buf[..j + 1] == old(buf[..j]) + [c]
  {
    buf[j] := c;
  }

  /** Terminate the j characters collected so far and read them as a C string. */
  method Terminate(buf: array<char>, j: nat) returns (s: string)
    requires j < buf.Length && NUL !in buf[..j]
    modifies buf
    ensures s == old(buf[..j])
  {
    buf[j] := NUL;
    CStrIs(buf[..], old(buf[..j]));
    return CStr(buf[..]);
  }

  /** Terminate the j characters collected so far and look the zocket type up; c is the component read. */
  method TerminateType(buf: array<char>, j: nat, ghost c: string) returns (t: ZType)
    requires j == |c| < buf.Length && NUL !in c && Mirrors(buf[..], c)
    modifies buf
    ensures t == TypeOf(c)
  {
    buf[j] := NUL;
    CStrBeforeDot(buf[..], c);
    return Str2Type(CStr(buf[..]));
  }

  /** One more character of component c, a dot becoming a terminator. */
  method AppendType(buf: array<char>, j: nat, ch: char, ghost c: string)
    requires j == |c| < buf.Length && Mirrors(buf[..], c)
    modifies buf
    ensures Mirrors(buf[..], c + [ch])
  {
    if ch == '.' {
      buf[j] := NUL;
    } else {
      buf[j] := ch;
    }
  }

  /** One event name of zfts_parse_events(). */
  method NameToMask(name: string) returns (r: Option<Mask>)
    ensures r == EvtMask(name)
  {
    var lower := LowerCase(name);
    if lower == "in" {
      return Some({In});
    } else if lower == "out" {
      return Some({Out});
    } else if lower == "err" {
      return Some({Err});
    } else if lower == "hup" {
      return Some({Hup});
    } else if lower == "all" {
      return Some({In, Out, Err, Hup});
    } else {
      return None;
    }
  }

  ghost predicate SameLetters(a: string, b: string) {
    |a| == |b| && forall i :: 0 <= i < |a| ==> Lower(a[i]) == Lower(b[i])
  }

  /** Event names are compared without regard to case. */
  lemma {:induction false} CaseIgnored(a: string, b: string)
    requires SameLetters(a, b)
    ensures LowerCase(a) == LowerCase(b) && EvtMask(a) == EvtMask(b)
  {
    if a != "" {
      CaseIgnored(a[1..], b[1..]);
    }
  }

  /** What the names mean: five are known, and "all" is the other four together. */
  lemma EventNames(name: string)
    ensures var low := LowerCase(name);
            && (EvtMask(name).Some? <==> low in {"in", "out", "err", "hup", "all"})
            && (low == "in" ==> EvtMask(name) == Some({In})) && (low == "out" ==> EvtMask(name) == Some({Out}))
            && (low == "err" ==> EvtMask(name) == Some({Err})) && (low == "hup" ==> EvtMask(name) == Some({Hup}))
            && (low == "all" ==> EvtMask(name) == Some({In, Out, Err, Hup}))
  {
  }

  /** And the zocket types; "zft" is another name for an active one. */
  lemma TypeNames(s: string)
    ensures Str2Type(s) != Unknown <==> s in {"urx", "utx", "zftl", "zft", "zft-act", "zft-pas"}
    ensures Str2Type("zft") == ZftAct && IsZft(ZftAct) && IsZft(ZftPas) && !IsZft(Urx) && !IsZft(Utx) && !IsZft(Zftl)
  {
  }

  /** The mask of a list of names: there is one exactly when each name is known, and it has just the events
      that some name asks for. */
  lemma {:induction false} MaskOfMeans(names: seq<string>, e: Evt)
    ensures MaskOf(names).Some? <==> forall k :: 0 <= k < |names| ==> EvtMask(LastPiece(names[k])).Some?
    ensures MaskOf(names).Some? ==>
              (e in MaskOf(names).value <==> exists k :: 0 <= k < |names| && e in EvtMask(LastPiece(names[k])).value)
  {
    if names != [] {
      MaskOfMeans(names[1..], e);
      assert names == [names[0]] + names[1..];
      assert forall k :: 1 <= k < |names| ==> names[k] == names[1..][k - 1];
    }
  }

  /** The masks of the first k words decide together with the next one. */
  lemma {:induction false} MaskOfNext(names: seq<string>, k: nat)
    requires k < |names|
    ensures MaskOf(names[..k + 1]) == Union(MaskOf(names[..k]), EvtMask(LastPiece(names[k])))
    ensures MaskOf(names[..k]) == None ==> MaskOf(names) == None
  {
    if k == 0 {
      assert names[..1] == [names[0]];
      UnionUnit(EvtMask(LastPiece(names[0])));
    } else {
      MaskOfNext(names[1..], k - 1);
      assert names[..k][1..] == names[1..][..k - 1] && names[..k + 1][1..] == names[1..][..k];
      UnionAssoc(EvtMask(LastPiece(names[0])), MaskOf(names[1..][..k - 1]), EvtMask(LastPiece(names[k])));
    }
  }

  lemma UnionUnit(a: Option<Mask>)
    ensures Union(Some({}), a) == a && Union(a, Some({})) == a
  {
    if a.Some? {
      assert {} + a.value == a.value && a.value + {} == a.value;
    }
  }

  lemma UnionAssoc(a: Option<Mask>, b: Option<Mask>, c: Option<Mask>)
    ensures Union(a, Union(b, c)) == Union(Union(a, b), c)
  {
    if a.Some? && b.Some? && c.Some? {
      assert a.value + (b.value + c.value) == a.value + b.value + c.value;
    }
  }

  /** At the end of word k: its event, and whether the whole string can still be parsed. */
  lemma WordRead(events: string, k: nat, start: nat, dot: nat, i: nat)
    requires InComponent(events, '_', k, start, i) && AfterDot(events, start, dot, i)
    requires i == |events| || events[i] == '_'
    ensures var words := Split(events, '_');
            && k < |words|
            && MaskOf(words[..k + 1]) == Union(MaskOf(words[..k]), EvtMask(events[dot..i]))
            && (MaskOf(words[..k + 1]) == None ==> EventsOf(events) == None)
            && (i == |events| ==> EventsOf(events) == MaskOf(words[..k + 1]))
  {
    var words := Split(events, '_');
    ComponentEnds(events, '_', k, start, i);
    AfterDotIsLastPiece(events, start, dot, i);
    MaskOfNext(words, k);
    if k + 1 < |words| {
      MaskOfNext(words, k + 1);
    } else {
      assert words[..k + 1] == words;
    }
  }

  /** A scanner is at character i, in component k, and has collected what follows the last dot of it. */
  ghost predicate Reading(s: string, sep: char, i: nat, buf: seq<char>, j: nat, k: nat, start: nat, dot: nat) {
    && dot <= i <= |s| && InComponent(s, sep, k, start, i) && AfterDot(s, start, dot, i)
    && j == i - dot && j <= |buf| && buf[..j] == s[dot..i]
  }

  /** One more character that is no dot and no separator. */
  method ReadChar(s: string, sep: char, i: nat, buf: array<char>, j: nat, ghost k: nat, ghost start: nat, ghost dot: nat)
    requires i < |s| && s[i] != '.' && s[i] != sep && j < buf.Length && Reading(s, sep, i, buf[..], j, k, start, dot)
    modifies buf
    ensures Reading(s, sep, i + 1, buf[..], j + 1, k, start, dot)
  {
    ComponentStep(s, sep, k, start, i);
    DotStep(s, start, dot, i);
    Append(buf, j, s[i]);
    assert buf[..][..j + 1] == buf[..j + 1];
  }

  /** A dot throws away what was collected. */
  lemma ReadDot(s: string, sep: char, i: nat, buf: seq<char>, j: nat, k: nat, start: nat, dot: nat,
                now: seq<char>)
    requires i < |s| && s[i] == '.' != sep && Reading(s, sep, i, buf, j, k, start, dot)
    ensures Reading(s, sep, i + 1, now, 0, k, start, i + 1)
  {
    ComponentStep(s, sep, k, start, i);
    DotStep(s, start, dot, i);
  }

  /** A separator begins the next component. */
  lemma ReadSeparator(s: string, sep: char, i: nat, buf: seq<char>, j: nat, k: nat, start: nat, dot: nat,
                      now: seq<char>)
    requires i < |s| && s[i] == sep && Reading(s, sep, i, buf, j, k, start, dot)
    ensures Reading(s, sep, i + 1, now, 0, k + 1, i + 1, i + 1)
  {
    ComponentStep(s, sep, k, start, i);
    DotStep(s, start, dot, i);
  }

  /** At the end of a word of zfts_parse_events(): add its event; not ok is TEST_FAIL. */
  method ParseWord(events: string, i: nat, evtStr: array<char>, j: nat, result: Mask,
                   ghost k: nat, ghost start: nat, ghost dot: nat) returns (ok: bool, result': Mask)
    requires i <= |events| < evtStr.Length && NUL !in events && (i == |events| || events[i] == '_')
    requires Reading(events, '_', i, evtStr[..], j, k, start, dot)
    requires k <= |Split(events, '_')| && MaskOf(Split(events, '_')[..k]) == Some(result)
    modifies evtStr
    ensures !ok ==> EventsOf(events) == None
    ensures ok ==> k < |Split(events, '_')| && MaskOf(Split(events, '_')[..k + 1]) == Some(result')
    ensures ok && i == |events| ==> EventsOf(events) == Some(result')
  {
    WordRead(events, k, start, dot, i);
    assert evtStr[..j] == events[dot..i];
    var name := Terminate(evtStr, j);
    var mask := NameToMask(name);
    if mask == None {
      return false, result;
    }
    return true, result + mask.value;
  }

  /** zfts_parse_events(); None for the string is a NULL pointer, None for the result TEST_FAIL. */
  method ParseEvents(text: Option<string>) returns (r: Option<Mask>)
    requires text.Some? ==> NUL !in text.value && |text.value| < EVT_BUF
    ensures r == if text.Some? then EventsOf(text.value) else Some({})
  {
    if text == None {
      return Some({});
    }
    var events := text.value;
    var evtStr := new char[EVT_BUF];
    var result: Mask := {};
    var i, j := 0, 0;
    ghost var k, start, dot := 0, 0, 0;
    while true
      invariant 0 <= j && Reading(events, '_', i, evtStr[..], j, k, start, dot)
      invariant k <= |Split(events, '_')| && MaskOf(Split(events, '_')[..k]) == Some(result)
      decreases |events| - i
    {
      var c := At(events, i);
      if c == '.' {
        ReadDot(events, '_', i, evtStr[..], j, k, start, dot, evtStr[..]);
        j := -1;
        dot := i + 1;
      } else if c == '_' || c == NUL {
        ghost var buf := evtStr[..];
        var ok;
        ok, result := ParseWord(events, i, evtStr, j, result, k, start, dot);
        if !ok {
          return None;
        }
        if c == NUL {
          return Some(result);
        }
        ReadSeparator(events, '_', i, buf, j, k, start, dot, evtStr[..]);
        j := -1;
        k, start, dot := k + 1, i + 1, i + 1;
      } else {
        ReadChar(events, '_', i, evtStr, j, k, start, dot);
      }
      i, j := i + 1, j + 1;
    }
  }

  /** The counting pass of zfts_create_mzockets(). */
  method CountComponents(spec: string) returns (count: nat)
    requires NUL !in spec
    ensures count == |Components(spec)|
  {
    count := 0;
    if At(spec, 0) != NUL {
      count := count + 1;
    }
    for i := 0 to |spec|
      invariant count == Seps(spec, ',', i) + if spec == "" then 0 else 1
    {
      if spec[i] == ',' {
        count := count + 1;
      }
    }
    SplitCount(spec, ',');
  }

  /** The first k zockets are those of the first k components, of known types and without events. */
  ghost predicate Created(mzocks: seq<Mzocket>, comps: seq<string>, k: nat) {
    && k <= |mzocks| == |comps|
    && forall m :: 0 <= m < k ==> mzocks[m] == Mzocket(TypeOf(comps[m]), {}) && TypeOf(comps[m]) != Unknown
  }

  /** zfts_create_mzocket(), as far as the array is concerned. */
  method CreateOne(mzocks: array<Mzocket>, k: nat, t: ZType, ghost comps: seq<string>)
    requires k < mzocks.Length == |comps| && Created(mzocks[..], comps, k) && t == TypeOf(comps[k]) != Unknown
    modifies mzocks
    ensures Created(mzocks[..], comps, k + 1)
  {
    mzocks[k] := Mzocket(t, {});
  }

  /** The creating scanner is at character i, in component k, which it has copied with its dots turned
      into terminators. */
  ghost predicate Copying(spec: string, i: nat, buf: seq<char>, j: nat, k: nat, start: nat) {
    && start <= i <= |spec| && InComponent(spec, ',', k, start, i)
    && j == i - start && Mirrors(buf, spec[start..i])
  }

  ghost predicate TypesFit(spec: string) {
    forall a: nat, b: nat :: Without(spec, ',', a, b) ==> b - a < TYPE_BUF
  }

  /** One more character of a component. */
  method CopyChar(spec: string, i: nat, typeStr: array<char>, j: nat, ghost k: nat, ghost start: nat)
    requires i < |spec| && spec[i] != ',' && typeStr.Length == TYPE_BUF && TypesFit(spec)
    requires Copying(spec, i, typeStr[..], j, k, start)
    modifies typeStr
    ensures Copying(spec, i + 1, typeStr[..], j + 1, k, start)
  {
    ComponentStep(spec, ',', k, start, i);
    assert Without(spec, ',', start, i);
    AppendType(typeStr, j, spec[i], spec[start..i]);
  }

  /** A comma begins the next component. */
  lemma CopySeparator(spec: string, i: nat, buf: seq<char>, j: nat, k: nat, start: nat, now: seq<char>)
    requires i < |spec| && spec[i] == ',' && Copying(spec, i, buf, j, k, start)
    ensures Copying(spec, i + 1, now, 0, k + 1, i + 1)
  {
    ComponentStep(spec, ',', k, start, i);
  }

  /** At the end of component k: create its zocket; not ok is TEST_FAIL. */
  method CreateHere(spec: string, i: nat, typeStr: array<char>, j: nat, mzocks: array<Mzocket>, k: nat, ghost start: nat)
    returns (ok: bool)
    requires NUL !in spec && spec != "" && typeStr.Length == TYPE_BUF && TypesFit(spec)
    requires i <= |spec| && (i == |spec| || spec[i] == ',') && Copying(spec, i, typeStr[..], j, k, start)
    requires k < mzocks.Length && Created(mzocks[..], Components(spec), k)
    modifies typeStr, mzocks
    ensures ok <==> TypeOf(Components(spec)[k]) != Unknown
    ensures ok ==> Created(mzocks[..], Components(spec), k + 1)
    ensures if i == |spec| then mzocks.Length == k + 1 else mzocks.Length > k + 1
  {
    ComponentEnds(spec, ',', k, start, i);
    assert Without(spec, ',', start, i);
    var zockType := TerminateType(typeStr, j, spec[start..i]);
    if zockType == Unknown {
      return false;
    }
    CreateOne(mzocks, k, zockType, Components(spec));
    return true;
  }

  /** zfts_create_mzockets(); None is the TEST_FAIL for an unknown zocket type. */
  method CreateMzockets(spec: string) returns (r: Option<array<Mzocket>>)
    requires NUL !in spec && TypesFit(spec)
    ensures r.Some? <==> forall k :: 0 <= k < |Components(spec)| ==> TypeOf(Components(spec)[k]) != Unknown
    ensures r.Some? ==> fresh(r.value) && Created(r.value[..], Components(spec), |Components(spec)|)
  {
    var count := CountComponents(spec);
    var mzocks := new Mzocket[count];
    if count == 0 {
      return Some(mzocks);
    }
    ghost var comps := Components(spec);
    var typeStr := new char[TYPE_BUF];
    var i, j, k := 0, 0, 0;
    ghost var start := 0;
    while true
      invariant 0 <= j && Copying(spec, i, typeStr[..], j, k, start)
      invariant 0 <= k < count && Created(mzocks[..], comps, k)
      decreases |spec| - i
    {
      var c := At(spec, i);
      if c == ',' || c == NUL {
        ghost var buf, at := typeStr[..], j;
        var ok := CreateHere(spec, i, typeStr, j, mzocks, k, start);
        if !ok {
          return None;
        }
        j := -1;
        k := k + 1;
        if c == NUL {
          return Some(mzocks);
        }
        CopySeparator(spec, i, buf, at, k - 1, start, typeStr[..]);
        start := i + 1;
      } else {
        CopyChar(spec, i, typeStr, j, k, start);
      }
      i, j := i + 1, j + 1;
    }
  }

  /** The events a component asks for: only what follows its last dot is looked at. */
  function Wanted(c: string): Option<Mask> { EventsOf(LastPiece(c)) }

  /** What the component asks for can be prepared on a zocket of this type. */
  ghost predicate Preparable(t: ZType, c: string) {
    Wanted(c).Some? && (Out in Wanted(c).value ==> IsZft(t))
  }

  ghost predicate AllPreparable(mzocks: seq<Mzocket>, comps: seq<string>) {
    forall k :: 0 <= k < |mzocks| && k < |comps| ==> Preparable(mzocks[k].ztype, comps[k])
  }

  /** The first k zockets got the events of the first k components; the rest are as they were. */
  ghost predicate Prepared(now: seq<Mzocket>, was: seq<Mzocket>, comps: seq<string>, k: nat) {
    && |now| == |was|
    && (forall m :: 0 <= m < k && m < |was| && m < |comps| ==>
          Preparable(was[m].ztype, comps[m]) && now[m] == was[m].(exp := Wanted(comps[m]).value))
    && (forall m :: 0 <= m < |was| && (k <= m || |comps| <= m) ==> now[m] == was[m])
  }

  /** At the end of component k. */
  lemma ComponentRead(spec: string, k: nat, start: nat, dot: nat, i: nat)
    requires InComponent(spec, ',', k, start, i) && AfterDot(spec, start, dot, i)
    requires i == |spec| || spec[i] == ','
    ensures k < |Split(spec, ',')| && Wanted(Split(spec, ',')[k]) == EventsOf(spec[dot..i])
    ensures if i == |spec| then |Split(spec, ',')| == k + 1 else |Split(spec, ',')| > k + 1
  {
    ComponentEnds(spec, ',', k, start, i);
    AfterDotIsLastPiece(spec, start, dot, i);
  }

  /** Parse the events of component k and give them to zocket k (zfts_mzocket_prepare_events()). */
  method PrepareOne(mzocks: array<Mzocket>, k: nat, events: string, ghost comps: seq<string>, ghost was: seq<Mzocket>)
    returns (ok: bool)
    requires k < mzocks.Length && k < |comps| && Prepared(mzocks[..], was, comps, k)
    requires NUL !in events && |events| < EVT_BUF && Wanted(comps[k]) == EventsOf(events)
    modifies mzocks
    ensures ok <==> Preparable(was[k].ztype, comps[k])
    ensures ok ==> Prepared(mzocks[..], was, comps, k + 1)
  {
    var mask := ParseEvents(Some(events));
    if mask == None || (Out in mask.value && !IsZft(mzocks[k].ztype)) {
      return false;
    }
    mzocks[k] := mzocks[k].(exp := mask.value);
    return true;
  }

  /** At the end of component k: parse and prepare its events; not ok is TEST_FAIL. */
  method PrepareHere(spec: string, i: nat, evtStr: array<char>, j: nat, mzocks: array<Mzocket>, k: nat,
                     ghost start: nat, ghost dot: nat, ghost was: seq<Mzocket>) returns (ok: bool)
    requires NUL !in spec && i <= |spec| < evtStr.Length == EVT_BUF && (i == |spec| || spec[i] == ',')
    requires Reading(spec, ',', i, evtStr[..], j, k, start, dot)
    requires k < mzocks.Length && k < |Split(spec, ',')| && Prepared(mzocks[..], was, Split(spec, ','), k)
    modifies evtStr, mzocks
    ensures ok <==> Preparable(was[k].ztype, Split(spec, ',')[k])
    ensures ok ==> Prepared(mzocks[..], was, Split(spec, ','), k + 1)
    ensures if i == |spec| then |Split(spec, ',')| == k + 1 else |Split(spec, ',')| > k + 1
  {
    ComponentRead(spec, k, start, dot, i);
    assert evtStr[..j] == spec[dot..i];
    var events := Terminate(evtStr, j);
    ok := PrepareOne(mzocks, k, events, Split(spec, ','), was);
  }

  /** zfts_mzockets_prepare_events(); false is TEST_FAIL. */
  method PrepareEvents(mzocks: array<Mzocket>, spec: string) returns (ok: bool)
    requires NUL !in spec && |spec| < EVT_BUF
    modifies mzocks
    ensures ok <==> AllPreparable(old(mzocks[..]), Split(spec, ','))
    ensures ok ==> Prepared(mzocks[..], old(mzocks[..]), Split(spec, ','), mzocks.Length)
  {
    if mzocks.Length <= 0 {
      return true;
    }
    ghost var comps, was := Split(spec, ','), mzocks[..];
    var evtStr := new char[EVT_BUF];
    var i, j, k := 0, 0, 0;
    ghost var start, dot := 0, 0;
    while true
      invariant 0 <= j && Reading(spec, ',', i, evtStr[..], j, k, start, dot)
      invariant 0 <= k < mzocks.Length && k < |comps| && Prepared(mzocks[..], was, comps, k)
      decreases |spec| - i
    {
      var c := At(spec, i);
      if c != ',' && c != NUL {
        if c == '.' {
          ghost var buf := evtStr[..];
          evtStr[0] := NUL;
          ReadDot(spec, ',', i, buf, j, k, start, dot, evtStr[..]);
          j := -1;
          dot := i + 1;
        } else {
          ReadChar(spec, ',', i, evtStr, j, k, start, dot);
        }
      } else {
        ghost var buf := evtStr[..];
        var done := PrepareHere(spec, i, evtStr, j, mzocks, k, start, dot, was);
        if !done {
          return false;
        }
        ghost var at := j;
        j := -1;
        k := k + 1;
        if k >= mzocks.Length {
          return true;
        }
        if c == ',' {
          ReadSeparator(spec, ',', i, buf, at, k - 1, start, dot, evtStr[..]);
        }
        start, dot := i + 1, i + 1;
      }
      if c == NUL {
        return true;
      }
      i, j := i + 1, j + 1;
    }
  }

  // ---------------------------------------------------------------- printing

  datatype Item = Item(ztype: ZType, evts: seq<Evt>)

  function TypeName(t: ZType): string {
    match t
    case Urx => "urx"
    case Utx => "utx"
    case Zftl => "zftl"
    case ZftAct => "zft-act"
    case ZftPas => "zft-pas"
    case Unknown => "?"
  }

  predicate Nameable(e: Evt) { !e.Bit? }

  function EvtName(e: Evt): string {
    match e
    case In => "in"
    case Out => "out"
    case Err => "err"
    case Hup => "hup"
    case Bit(_) => "?"
  }

  function Names(evts: seq<Evt>): (r: seq<string>)
    ensures |r| == |evts|
  {
    if evts == [] then [] else [EvtName(evts[0])] + Names(evts[1..])
  }

  /** type.event_event */
  function PrintItem(it: Item): string { TypeName(it.ztype) + "." + Join(Names(it.evts), '_') }

  function PrintItems(items: seq<Item>): (r: seq<string>)
    ensures |r| == |items|
  {
    if items == [] then [] else [PrintItem(items[0])] + PrintItems(items[1..])
  }

  function Print(items: seq<Item>): string { Join(PrintItems(items), ',') }

  ghost predicate Printable(it: Item) {
    it.ztype != Unknown && it.evts != [] && forall e :: e in it.evts ==> Nameable(e)
  }

  ghost function Events(evts: seq<Evt>): Mask { set e | e in evts }

  lemma {:induction false} NamesPlain(evts: seq<Evt>)
    requires forall e :: e in evts ==> Nameable(e)
    ensures forall n :: n in Names(evts) ==> '_' !in n && '.' !in n && ',' !in n && NUL !in n
    ensures MaskOf(Names(evts)) == Some(Events(evts))
  {
    if evts != [] {
      NamesPlain(evts[1..]);
      var n := EvtName(evts[0]);
      assert evts[0] in evts;
      NamePlain(evts[0]);
      LastDotIs(n, 0, |n|);
      assert Names(evts)[1..] == Names(evts[1..]);
      assert MaskOf(Names(evts)) == Some({evts[0]} + Events(evts[1..]));
      assert Events(evts) == {evts[0]} + Events(evts[1..]);
    } else {
      assert Events(evts) == {};
    }
  }

  lemma NamePlain(e: Evt)
    requires Nameable(e)
    ensures var n := EvtName(e); '_' !in n && '.' !in n && ',' !in n && NUL !in n && n[0..] == n
    ensures EvtMask(EvtName(e)) == Some({e})
  {
    match e
    case In => assert LowerCase("in") == "in";
    case Out => assert LowerCase("out") == "out";
    case Err => assert LowerCase("err") == "err";
    case Hup => assert LowerCase("hup") == "hup";
  }

  lemma {:induction false} JoinAvoids(parts: seq<string>, sep: char, ch: char)
    requires ch != sep && forall p :: p in parts ==> ch !in p
    ensures ch !in Join(parts, sep)
  {
    if |parts| > 1 {
      JoinAvoids(parts[1..], sep, ch);
    }
  }

  lemma ItemRoundTrip(it: Item)
    requires Printable(it)
    ensures var c := PrintItem(it);
            ',' !in c && NUL !in c && c != "" && TypeOf(c) == it.ztype && Wanted(c) == Some(Events(it.evts))
  {
    var t, e := TypeName(it.ztype), Join(Names(it.evts), '_');
    TypePlain(it.ztype);
    NamesPlain(it.evts);
    JoinAvoids(Names(it.evts), '_', '.');
    JoinAvoids(Names(it.evts), '_', ',');
    JoinAvoids(Names(it.evts), '_', NUL);
    SplitJoin(Names(it.evts), '_');
    TypeDotEvents(t, e);
  }

  lemma TypePlain(t: ZType)
    requires t != Unknown
    ensures var n := TypeName(t); '.' !in n && ',' !in n && NUL !in n && n != "" && Str2Type(n) == t
  {
  }

  lemma TypeDotEvents(t: string, e: string)
    requires '.' !in t && '.' !in e
    ensures var c := t + "." + e; c[..Find(c, '.')] == t && LastPiece(c) == e
  {
    var c := t + "." + e;
    assert c[..|t|] == t && c[|t| + 1..] == e;
    FindUnique(c, '.', 0, |t|);
    assert forall m :: |t| + 1 <= m < |c| ==> c[m] == e[m - |t| - 1];
    LastDotIs(c, |t| + 1, |c|);
  }

  /** Reading back what was printed gives the types and the event sets, in order: both scanners see
      the same components, and as many of them as there are items. */
  lemma {:induction false} PrintRoundTrip(items: seq<Item>)
    requires forall it :: it in items ==> Printable(it)
    ensures NUL !in Print(items) && |Components(Print(items))| == |items|
    ensures items != [] ==> Print(items) != "" && Split(Print(items), ',') == Components(Print(items))
    ensures forall k :: 0 <= k < |items| ==>
              && TypeOf(Components(Print(items))[k]) == items[k].ztype
              && Wanted(Components(Print(items))[k]) == Some(Events(items[k].evts))
  {
    var parts := PrintItems(items);
    ItemsRoundTrip(items);
    JoinAvoids(parts, ',', NUL);
    if items != [] {
      SplitJoin(parts, ',');
      JoinNonEmpty(parts, ',');
    }
  }

  /** So creating zockets from a printed specification and then preparing their events from the same one
      gives just what was printed; it fails exactly when EPOLLOUT is asked of a zocket that is not a
      connected TCP one. */
  lemma PrintedThenRead(items: seq<Item>, created: seq<Mzocket>, prepared: seq<Mzocket>)
    requires items != [] && forall it :: it in items ==> Printable(it)
    requires Created(created, Components(Print(items)), |items|)
    ensures AllPreparable(created, Split(Print(items), ',')) <==>
            forall k :: 0 <= k < |items| && Out in items[k].evts ==> IsZft(items[k].ztype)
    ensures Prepared(prepared, created, Split(Print(items), ','), |items|) ==>
            |prepared| == |items|
            && forall k :: 0 <= k < |items| ==> prepared[k] == Mzocket(items[k].ztype, Events(items[k].evts))
  {
    PrintRoundTrip(items);
    var comps := Components(Print(items));
    assert forall k :: 0 <= k < |items| ==>
        (Preparable(created[k].ztype, comps[k]) <==> (Out in items[k].evts ==> IsZft(items[k].ztype)));
    if Prepared(prepared, created, comps, |items|) {
      forall k | 0 <= k < |items|
        ensures prepared[k] == Mzocket(items[k].ztype, Events(items[k].evts))
      {
        assert created[k] == Mzocket(TypeOf(comps[k]), {});
        assert Wanted(comps[k]) == Some(Events(items[k].evts));
      }
    }
  }

  lemma JoinNonEmpty(parts: seq<string>, sep: char)
    requires parts != [] && parts[0] != ""
    ensures Join(parts, sep) != ""
  {
  }

  lemma {:induction false} ItemsRoundTrip(items: seq<Item>)
    requires forall it :: it in items ==> Printable(it)
    ensures forall k :: 0 <= k < |items| ==> PrintItems(items)[k] == PrintItem(items[k])
    ensures forall c :: c in PrintItems(items) ==> ',' !in c && NUL !in c && c != ""
    ensures forall k :: 0 <= k < |items| ==>
              && TypeOf(PrintItems(items)[k]) == items[k].ztype
              && Wanted(PrintItems(items)[k]) == Some(Events(items[k].evts))
  {
    if items != [] {
      ItemRoundTrip(items[0]);
      ItemsRoundTrip(items[1..]);
    }
  }
}
