/** The reader's errors, exactly: a text is rejected with an error at an offset if and only if it breaks off
    there, told by a tree of what stands before the break. */
module Rejection {
  import opened Bytes
  import opened Json
  import opened Limits
  import opened ReaderSpec
  import opened Grammar
  import opened Places
  import opened Completeness
  import opened Soundness
  import opened Defects

  /** A value that breaks off: at once, or inside an object or array. */
  datatype Broken = Leaf | InObject(gap: Gap, members: BrokenMembers) | InArray(gap: Gap, elements: BrokenElements)

  /** Whole members up to the one that breaks off, and how that one does. */
  datatype BrokenMembers =
    | NoName
    | BrokenName
    | NoColon(name: seq<Char>, gap1: Gap)
    | BrokenValue(name: seq<Char>, gap1: Gap, gap2: Gap, value: Broken)
    | NoMemberEnd(m: Member)
    | LaterMember(m: Member, gap: Gap, rest: BrokenMembers)

  datatype BrokenElements =
    | BrokenElement(value: Broken)
    | NoElementEnd(v: Tree, after: Gap)
    | LaterElement(v: Tree, after: Gap, gap: Gap, rest: BrokenElements)

  // --- where the breaks are ---

  /** A word of which only the first letters stand at p; `slack` is what is added to the bad byte's offset. */
  predicate WordStops(t: seq<byte>, p: nat, word: seq<byte>, slack: nat, error: Error, offset: int) {
    var k := offset - slack - p;
    && error == InvalidValue && 0 < k < |word|
    && (forall j: nat | p <= j < p + k :: Peek(t, j) == word[j - p]) && Peek(t, p + k) != word[k]
  }

  ghost predicate LeafBreaks(huge: Rounding, t: seq<byte>, p: nat, error: Error, offset: int) {
    var c := Peek(t, p);
    if c == 0x6E then WordStops(t, p, NULL_WORD, 0, error, offset)
    else if c == 0x74 then WordStops(t, p, TRUE_WORD, 1, error, offset)
    else if c == 0x66 then WordStops(t, p, FALSE_WORD, 0, error, offset)
    else if c == 0x22 then StringStops(t, p, error, offset)
    else c != 0x7B && c != 0x5B && NumberStops(huge, t, p, error, offset)
  }

  /** A value that the reader takes stands at p. */
  predicate Stands(huge: Rounding, t: seq<byte>, p: nat, v: Tree) {
    TreeAt(t, p, v) && Readable(huge, v) && StopsAt(t, p, v)
  }

  predicate NameStands(t: seq<byte>, p: nat, name: seq<Char>, gap1: Gap) {
    StringAt(t, p, name) && CharsReadable(name) && At(t, StringEnd(p, name), gap1)
  }

  predicate MemberStands(huge: Rounding, t: seq<byte>, p: nat, m: Member) {
    && MemberAt(t, p, m) && CharsReadable(m.name) && Readable(huge, m.value)
    && StopsAt(t, GapEnd(ColonPos(p, m), m.gap2), m.value)
  }

  /** The gap at p is all the whitespace there. */
  predicate GapStands(t: seq<byte>, p: nat, gap: Gap) { At(t, p, gap) && !IsWs(Peek(t, p + |gap|)) }

  ghost predicate Breaks(huge: Rounding, t: seq<byte>, p: nat, b: Broken, error: Error, offset: int)
    decreases b
  {
    match b
    case Leaf => LeafBreaks(huge, t, p, error, offset)
    case InObject(gap, ms) =>
      && Peek(t, p) == 0x7B && GapStands(t, p + 1, gap) && Peek(t, GapEnd(p, gap)) != 0x7D
      && MembersBreak(huge, t, GapEnd(p, gap), ms, error, offset)
    case InArray(gap, es) =>
      && Peek(t, p) == 0x5B && GapStands(t, p + 1, gap) && Peek(t, GapEnd(p, gap)) != 0x5D
      && ElementsBreak(huge, t, GapEnd(p, gap), es, error, offset)
  }

  ghost predicate MembersBreak(huge: Rounding, t: seq<byte>, p: nat, ms: BrokenMembers, error: Error, offset: int)
    decreases ms
  {
    match ms
    case NoName => Peek(t, p) != 0x22 && error == NameNotString && offset == p
    case BrokenName => Peek(t, p) == 0x22 && StringStops(t, p, error, offset)
    case NoColon(name, gap1) =>
      var q := StringEnd(p, name) + |gap1|;
      && NameStands(t, p, name, gap1) && !IsWs(Peek(t, q)) && Peek(t, q) != 0x3A
      && error == MissingColon && offset == q + 1
    case BrokenValue(name, gap1, gap2, value) =>
      var q := StringEnd(p, name) + |gap1|;
      && NameStands(t, p, name, gap1) && Peek(t, q) == 0x3A && GapStands(t, q + 1, gap2)
      && Breaks(huge, t, GapEnd(q, gap2), value, error, offset)
    case NoMemberEnd(m) =>
      var q := MemberEnd(p, m);
      && MemberStands(huge, t, p, m) && !IsWs(Peek(t, q)) && Peek(t, q) !in {0x2C, 0x7D}
      && error == MemberSeparator && offset == q + 1
    case LaterMember(m, gap, rest) =>
      var q := MemberEnd(p, m);
      && MemberStands(huge, t, p, m) && Peek(t, q) == 0x2C && GapStands(t, q + 1, gap)
      && MembersBreak(huge, t, GapEnd(q, gap), rest, error, offset)
  }

  ghost predicate ElementsBreak(huge: Rounding, t: seq<byte>, p: nat, es: BrokenElements, error: Error, offset: int)
    decreases es
  {
    match es
    case BrokenElement(value) => Breaks(huge, t, p, value, error, offset)
    case NoElementEnd(v, after) =>
      var q := TreeEnd(p, v) + |after|;
      && Stands(huge, t, p, v) && GapStands(t, TreeEnd(p, v), after) && Peek(t, q) !in {0x2C, 0x5D}
      && error == ElementSeparator && offset == q + 1
    case LaterElement(v, after, gap, rest) =>
      var q := TreeEnd(p, v) + |after|;
      && Stands(huge, t, p, v) && At(t, TreeEnd(p, v), after) && Peek(t, q) == 0x2C && GapStands(t, q + 1, gap)
      && ElementsBreak(huge, t, GapEnd(q, gap), rest, error, offset)
  }

  /** A whole text that breaks off: nothing there, no bracket at its start, a break inside, or more at its end. */
  ghost predicate TextBreaks(huge: Rounding, t: seq<byte>, before: Gap, error: Error, offset: int) {
    var p := |before|;
    && GapStands(t, 0, before)
    && if Peek(t, p) == 0 then error == OnlyWhitespace && offset == p
       else if Peek(t, p) !in {0x7B, 0x5B} then error == ExpectRoot && offset == p
       else
         || (exists b :: Breaks(huge, t, p, b, error, offset))
         || (error == TrailingText && exists v, after :: MoreFollows(huge, t, p, v, after, offset))
  }

  predicate MoreFollows(huge: Rounding, t: seq<byte>, p: nat, v: Tree, after: Gap, offset: int) {
    && Stands(huge, t, p, v) && GapStands(t, TreeEnd(p, v), after)
    && offset == TreeEnd(p, v) + |after| && Peek(t, offset) != 0
  }

  /** The outcome is this error, whatever was sent before it. */
  predicate Errs(r: Outcome, error: Error, offset: int) { r.Fail? && r.error == error && r.offset == offset }

  // --- what breaks off is reported ---

  lemma {:induction false} MatchStops(t: seq<byte>, p: nat, s: seq<byte>)
    requires 0 !in s
    ensures var k := Matched(t, p, s);
      (forall j: nat | p <= j < p + k :: Peek(t, j) == s[j - p]) && (k < |s| ==> Peek(t, p + k) != s[k])
    decreases |s|
  {
    if s != [] {
      MatchStops(t, p + 1, s[1..]);
    }
  }

  lemma WordFails(t: seq<byte>, p: nat, ev: seq<Event>, word: seq<byte>, e: Event, slack: nat,
    error: Error, offset: int)
    requires word != [] && 0 !in word && Peek(t, p) == word[0]
    ensures WordStops(t, p, word, slack, error, offset) <==>
      Errs(ParseWord(t, p, ev, word[1..], e, slack), error, offset)
  {
    var k := Matched(t, p + 1, word[1..]);
    MatchStops(t, p + 1, word[1..]);
    assert forall j: nat | p < j < p + 1 + k :: Peek(t, j) == word[1..][j - (p + 1)] == word[j - p];
  }

  lemma LeafFails(huge: Rounding, t: seq<byte>, p: nat, ev: seq<Event>, error: Error, offset: int)
    ensures LeafBreaks(huge, t, p, error, offset) <==>
      Peek(t, p) !in {LBRACE, LBRACKET} && Errs(ParseValue(huge, t, p, ev), error, offset)
  {
    hide WordStops, StringStops, NumberStops, ParseWord, ParseString, ParseNumber;
    assert NULL_WORD[1..] == NULL_TAIL && TRUE_WORD[1..] == TRUE_TAIL && FALSE_WORD[1..] == FALSE_TAIL;
    if Peek(t, p) == 0x6E { WordFails(t, p, ev, NULL_WORD, Null, 0, error, offset); }
    if Peek(t, p) == 0x74 { WordFails(t, p, ev, TRUE_WORD, Bool(true), 1, error, offset); }
    if Peek(t, p) == 0x66 { WordFails(t, p, ev, FALSE_WORD, Bool(false), 0, error, offset); }
    StringFailsExactly(t, p, ev, error, offset);
    NumberFailsExactly(huge, t, p, ev, error, offset);
    StringErrs(t, p, ev, error, offset);
    NumberErrs(huge, t, p, ev, error, offset);
  }

  lemma StringErrs(t: seq<byte>, p: nat, ev: seq<Event>, error: Error, offset: int)
    ensures Errs(ParseString(t, p, ev), error, offset) <==> ParseString(t, p, ev) == Fail(ev, error, offset)
  {}

  lemma NumberErrs(huge: Rounding, t: seq<byte>, p: nat, ev: seq<Event>, error: Error, offset: int)
    ensures Errs(ParseNumber(huge, t, p, ev), error, offset) <==> ParseNumber(huge, t, p, ev) == Fail(ev, error, offset)
  {
    if ParseNumber(huge, t, p, ev).Fail? { NumberKeepsEvents(huge, t, p, ev); }
  }

  lemma {:induction false} BreakFails(huge: Rounding, t: seq<byte>, p: nat, ev: seq<Event>, b: Broken,
    error: Error, offset: int)
    requires Breaks(huge, t, p, b, error, offset)
    ensures Errs(ParseValue(huge, t, p, ev), error, offset)
    decreases b, 0
  {
    hide LeafBreaks, MembersBreak, ElementsBreak, ParseMembers, ParseElements, SkipWs;
    match b {
      case Leaf =>
        LeafFails(huge, t, p, ev, error, offset);
      case InObject(gap, ms) =>
        SkipsWs(t, p + 1, gap);
        MembersFail(huge, t, GapEnd(p, gap), ev + [StartObject], 0, ms, error, offset);
      case InArray(gap, es) =>
        SkipsWs(t, p + 1, gap);
        ElementsFail(huge, t, GapEnd(p, gap), ev + [StartArray], 0, es, error, offset);
    }
  }

  lemma {:induction false} MembersFail(huge: Rounding, t: seq<byte>, p: nat, ev: seq<Event>, n: nat,
    ms: BrokenMembers, error: Error, offset: int)
    requires MembersBreak(huge, t, p, ms, error, offset)
    ensures Errs(ParseMembers(huge, t, p, ev, n), error, offset)
    decreases ms, 1
  {
    hide ParseMember, Breaks, MemberAt, MemberEnd, CharsReadable, Readable, StopsAt, SkipWs, NameStands, StringStops;
    hide At, EmitMember;
    match ms {
      case NoMemberEnd(m) => ReadsMember(huge, t, p, ev, m);
      case LaterMember(m, gap, rest) =>
        var q := GapEnd(MemberEnd(p, m), gap);
        ReadsMember(huge, t, p, ev, m);
        SkipsWs(t, MemberEnd(p, m) + 1, gap);
        MembersFail(huge, t, q, EmitMember(m, ev), n + 1, rest, error, offset);
        assert ParseMembers(huge, t, p, ev, n) == ParseMembers(huge, t, q, EmitMember(m, ev), n + 1);
      case _ => MemberFails(huge, t, p, ev, ms, error, offset);
    }
  }

  lemma {:induction false} MemberFails(huge: Rounding, t: seq<byte>, p: nat, ev: seq<Event>, ms: BrokenMembers,
    error: Error, offset: int)
    requires MembersBreak(huge, t, p, ms, error, offset) && !ms.NoMemberEnd? && !ms.LaterMember?
    ensures Errs(ParseMember(huge, t, p, ev), error, offset)
    decreases ms, 0
  {
    hide Breaks, SkipWs, CharsReadable, CharsAt, At, ParseString, ParseValue, StringStops, MemberStands, CharsEnd;
    match ms {
      case NoName =>
      case BrokenName => StringFailsExactly(t, p, ev, error, offset);
      case NoColon(name, gap1) =>
        NameReads(huge, t, p, ev, name, gap1);
      case BrokenValue(name, gap1, gap2, value) =>
        ValueFails(huge, t, p, ev, name, gap1, gap2, value, error, offset);
    }
  }

  lemma {:induction false} ValueFails(huge: Rounding, t: seq<byte>, p: nat, ev: seq<Event>, name: seq<Char>,
    gap1: Gap, gap2: Gap, value: Broken, error: Error, offset: int)
    requires var q := StringEnd(p, name) + |gap1|;
      && NameStands(t, p, name, gap1) && Peek(t, q) == 0x3A && GapStands(t, q + 1, gap2)
      && Breaks(huge, t, GapEnd(q, gap2), value, error, offset)
    ensures Errs(ParseMember(huge, t, p, ev), error, offset)
    decreases value, 1
  {
    hide Breaks, SkipWs, ParseValue, ParseMember, NameStands, StringEnd, At;
    var q := StringEnd(p, name) + |gap1|;
    NameReads(huge, t, p, ev, name, gap1);
    SkipsWs(t, q + 1, gap2);
    BreakFails(huge, t, GapEnd(q, gap2), ev + [String(Copied(CharsBytes(name, [])))], value, error, offset);
  }

  /** A name and the whitespace behind it are read. */
  lemma NameReads(huge: Rounding, t: seq<byte>, p: nat, ev: seq<Event>, name: seq<Char>, gap1: Gap)
    requires NameStands(t, p, name, gap1) && !IsWs(Peek(t, StringEnd(p, name) + |gap1|))
    ensures ParseMember(huge, t, p, ev) ==
      ParseMemberValue(huge, t, StringEnd(p, name) + |gap1|, ev + [String(Copied(CharsBytes(name, [])))])
  {
    hide SkipWs, CharsReadable, CharsAt, CharsEnd, At, ParseString, ParseMemberValue;
    ReadsString(t, p, ev, name);
    SkipsWs(t, StringEnd(p, name), gap1);
  }

  lemma {:induction false} ElementsFail(huge: Rounding, t: seq<byte>, p: nat, ev: seq<Event>, n: nat,
    es: BrokenElements, error: Error, offset: int)
    requires ElementsBreak(huge, t, p, es, error, offset)
    ensures Errs(ParseElements(huge, t, p, ev, n), error, offset)
    decreases es
  {
    hide ParseValue, Breaks, SkipWs, TreeAt, TreeEnd, Readable, StopsAt, At;
    match es {
      case BrokenElement(value) => BreakFails(huge, t, p, ev, value, error, offset);
      case NoElementEnd(v, after) =>
        ReadsValue(huge, t, p, ev, v);
        SkipsWs(t, TreeEnd(p, v), after);
      case LaterElement(v, after, gap, rest) =>
        var q := TreeEnd(p, v) + |after|;
        ReadsValue(huge, t, p, ev, v);
        SkipsWs(t, TreeEnd(p, v), after);
        SkipsWs(t, q + 1, gap);
        ElementsFail(huge, t, GapEnd(q, gap), Emit(v, ev), n + 1, rest, error, offset);
        assert ParseElements(huge, t, p, ev, n) == ParseElements(huge, t, GapEnd(q, gap), Emit(v, ev), n + 1);
    }
  }

  // --- what is reported breaks off ---

  /** A rejected value breaks off where the reader says. */
  lemma {:induction false} FindsBreak(huge: Rounding, t: seq<byte>, p: nat, ev: seq<Event>) returns (b: Broken)
    requires ParseValue(huge, t, p, ev).Fail?
    ensures var r := ParseValue(huge, t, p, ev); Breaks(huge, t, p, b, r.error, r.offset)
    decreases |t| - p, 2
  {
    hide LeafBreaks, MembersBreak, ElementsBreak, ParseMembers, ParseElements, SkipWs;
    hide ParseString, ParseNumber, ParseWord;
    var r := ParseValue(huge, t, p, ev);
    if Peek(t, p) == LBRACE {
      var gap := FindsGap(t, p + 1);
      SkipsTo(t, p + 1);
      var ms := FindsBadMembers(huge, t, GapEnd(p, gap), ev + [StartObject], 0);
      b := InObject(gap, ms);
    } else if Peek(t, p) == LBRACKET {
      var gap := FindsGap(t, p + 1);
      SkipsTo(t, p + 1);
      var es := FindsBadElements(huge, t, GapEnd(p, gap), ev + [StartArray], 0);
      b := InArray(gap, es);
    } else {
      b := Leaf;
      LeafFails(huge, t, p, ev, r.error, r.offset);
    }
  }

  lemma SkipsTo(t: seq<byte>, p: nat)
    ensures !IsWs(Peek(t, SkipWs(t, p)))
  {}

  lemma {:induction false} FindsBadMembers(huge: Rounding, t: seq<byte>, p: nat, ev: seq<Event>, n: nat)
      returns (ms: BrokenMembers)
    requires ParseMembers(huge, t, p, ev, n).Fail?
    ensures var r := ParseMembers(huge, t, p, ev, n); MembersBreak(huge, t, p, ms, r.error, r.offset)
    decreases |t| - p, 5
  {
    hide ParseMember, Breaks, MemberAt, MemberEnd, CharsReadable, Readable, StopsAt, SkipWs, NameStands, StringStops;
    hide At, EmitMember;
    if ParseMember(huge, t, p, ev).Fail? {
      ms := FindsBadMember(huge, t, p, ev);
    } else {
      var m := FindsMember(huge, t, p, ev);
      var q := MemberEnd(p, m);
      if Peek(t, q) == COMMA {
        var gap := FindsGap(t, q + 1);
        SkipsTo(t, q + 1);
        assert ParseMembers(huge, t, p, ev, n) == ParseMembers(huge, t, GapEnd(q, gap), EmitMember(m, ev), n + 1);
        var rest := FindsBadMembers(huge, t, GapEnd(q, gap), EmitMember(m, ev), n + 1);
        ms := LaterMember(m, gap, rest);
      } else {
        ms := NoMemberEnd(m);
      }
    }
  }

  lemma {:induction false} FindsBadMember(huge: Rounding, t: seq<byte>, p: nat, ev: seq<Event>)
      returns (ms: BrokenMembers)
    requires ParseMember(huge, t, p, ev).Fail?
    ensures var r := ParseMember(huge, t, p, ev); MembersBreak(huge, t, p, ms, r.error, r.offset)
    decreases |t| - p, 4
  {
    hide Breaks, SkipWs, CharsReadable, CharsAt, At, ParseString, ParseValue, StringStops, MemberStands, CharsEnd;
    if Peek(t, p) != QUOTE {
      ms := NoName;
    } else if ParseString(t, p, ev).Fail? {
      StringFailsExactly(t, p, ev, ParseString(t, p, ev).error, ParseString(t, p, ev).offset);
      StringKeepsEvents(t, p, ev);
      ms := BrokenName;
    } else {
      var name := FindsString(t, p, ev);
      var gap1 := FindsGap(t, StringEnd(p, name));
      var q := StringEnd(p, name) + |gap1|;
      var named := ev + [String(Copied(CharsBytes(name, [])))];
      assert ParseMember(huge, t, p, ev) == ParseMemberValue(huge, t, q, named);
      SkipsTo(t, StringEnd(p, name));
      if Peek(t, q) != COLON {
        ms := NoColon(name, gap1);
      } else {
        var gap2 := FindsGap(t, q + 1);
        SkipsTo(t, q + 1);
        var value := FindsBreak(huge, t, GapEnd(q, gap2), named);
        ms := BrokenValue(name, gap1, gap2, value);
      }
    }
  }

  lemma StringKeepsEvents(t: seq<byte>, p: nat, ev: seq<Event>)
    requires ParseString(t, p, ev).Fail?
    ensures ParseString(t, p, ev).events == ev
  {}

  lemma {:induction false} FindsBadElements(huge: Rounding, t: seq<byte>, p: nat, ev: seq<Event>, n: nat)
      returns (es: BrokenElements)
    requires ParseElements(huge, t, p, ev, n).Fail?
    ensures var r := ParseElements(huge, t, p, ev, n); ElementsBreak(huge, t, p, es, r.error, r.offset)
    decreases |t| - p, 4
  {
    hide ParseValue, Breaks, SkipWs, TreeEnd, Stands, GapStands, Emit, At;
    if ParseValue(huge, t, p, ev).Fail? {
      var b := FindsBreak(huge, t, p, ev);
      es := BrokenElement(b);
    } else {
      var v, after := FindsElement(huge, t, p, ev);
      var q := TreeEnd(p, v) + |after|;
      if Peek(t, q) == COMMA {
        var gap := FindsWholeGap(t, q + 1);
        assert ParseElements(huge, t, p, ev, n) == ParseElements(huge, t, GapEnd(q, gap), Emit(v, ev), n + 1);
        var rest := FindsBadElements(huge, t, GapEnd(q, gap), Emit(v, ev), n + 1);
        es := LaterElement(v, after, gap, rest);
      } else {
        es := NoElementEnd(v, after);
      }
    }
  }

  lemma FindsWholeGap(t: seq<byte>, p: nat) returns (gap: Gap)
    ensures GapStands(t, p, gap) && At(t, p, gap) && SkipWs(t, p) == p + |gap|
  {
    gap := FindsGap(t, p);
    SkipsTo(t, p);
  }

  /** An element that is read, with the whitespace behind it. */
  lemma FindsElement(huge: Rounding, t: seq<byte>, p: nat, ev: seq<Event>) returns (v: Tree, after: Gap)
    requires ParseValue(huge, t, p, ev).Done?
    ensures Stands(huge, t, p, v) && GapStands(t, TreeEnd(p, v), after) && At(t, TreeEnd(p, v), after)
    ensures ParseValue(huge, t, p, ev) == Done(Emit(v, ev), TreeEnd(p, v))
    ensures p < TreeEnd(p, v) <= |t| && SkipWs(t, TreeEnd(p, v)) == TreeEnd(p, v) + |after|
  {
    v := FindsValue(huge, t, p, ev);
    after := FindsWholeGap(t, TreeEnd(p, v));
  }

  // --- whole texts ---

  /** The reader rejects a text with an error at an offset if and only if the text breaks off so. */
  lemma RejectsExactly(huge: Rounding, t: seq<byte>, error: Error, offset: int)
    ensures (exists before: Gap :: TextBreaks(huge, t, before, error, offset)) <==> Errs(Parse(huge, t), error, offset)
  {
    if before: Gap :| TextBreaks(huge, t, before, error, offset) {
      TextFails(huge, t, before, error, offset);
    }
    if Errs(Parse(huge, t), error, offset) {
      var before := FindsGap(t, 0);
      FindsTextBreak(huge, t, before, error, offset);
    }
  }

  lemma TextFails(huge: Rounding, t: seq<byte>, before: Gap, error: Error, offset: int)
    requires TextBreaks(huge, t, before, error, offset)
    ensures Errs(Parse(huge, t), error, offset)
  {
    hide ParseValue, Breaks, SkipWs, TreeAt, TreeEnd, Readable, StopsAt, At;
    SkipsWs(t, 0, before);
    var p := |before|;
    if b :| Breaks(huge, t, p, b, error, offset) { BreakFails(huge, t, p, [], b, error, offset); }
    if v, after :| MoreFollows(huge, t, p, v, after, offset) {
      ReadsValue(huge, t, p, [], v);
      SkipsWs(t, TreeEnd(p, v), after);
    }
  }

  lemma FindsTextBreak(huge: Rounding, t: seq<byte>, before: Gap, error: Error, offset: int)
    requires At(t, 0, before) && SkipWs(t, 0) == |before| && Errs(Parse(huge, t), error, offset)
    ensures TextBreaks(huge, t, before, error, offset)
  {
    hide ParseValue, Breaks, SkipWs, TreeAt, TreeEnd, Readable, StopsAt, At;
    SkipsTo(t, 0);
    var p := |before|;
    if Peek(t, p) in {LBRACE, LBRACKET} {
      if ParseValue(huge, t, p, []).Fail? {
        var b := FindsBreak(huge, t, p, []);
      } else {
        var v := FindsValue(huge, t, p, []);
        var after := FindsGap(t, TreeEnd(p, v));
        SkipsTo(t, TreeEnd(p, v));
        assert MoreFollows(huge, t, p, v, after, offset);
      }
    }
  }
}
