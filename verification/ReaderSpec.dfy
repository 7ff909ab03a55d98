/** The reader as functions of the text: what each parsing function of rapidjson/reader.h
    sends to the handler and where it leaves the cursor. Events are appended to `ev`. */
module ReaderSpec {
  import opened Options
  import opened Bytes
  import opened Decimal
  import opened Json
  import opened Limits
  import opened Utf

  function SkipWs(t: seq<byte>, p: nat): (q: nat)
    ensures p <= q && (p <= |t| ==> q <= |t|)
    ensures !IsWs(Peek(t, q))
    decreases |t| - p
  {
    if IsWs(Peek(t, p)) then SkipWs(t, p + 1) else p
  }

  /** Spaces, line feeds, carriage returns and tabs are passed, and nothing else. */
  lemma {:induction false} SkipsExactly(t: seq<byte>, p: nat)
    ensures Peek(t, SkipWs(t, p)) !in {0x20, 0x0A, 0x0D, 0x09}
    ensures forall i: nat | p <= i < SkipWs(t, p) :: Peek(t, i) in {0x20, 0x0A, 0x0D, 0x09}
    decreases |t| - p
  {
    if IsWs(Peek(t, p)) { SkipsExactly(t, p + 1); }
  }

  function DigitsEnd(t: seq<byte>, p: nat): (q: nat)
    ensures p <= q && (p <= |t| ==> q <= |t|)
    ensures p <= |t| ==> AllDigits(t[p..q])
    ensures !IsDigit(Peek(t, q))
    decreases |t| - p
  {
    if IsDigit(Peek(t, p)) then DigitsEnd(t, p + 1) else p
  }

  // --- null, true, false ---

  const NULL_TAIL: seq<byte> := [0x75, 0x6C, 0x6C]
  const TRUE_TAIL: seq<byte> := [0x72, 0x75, 0x65]
  const FALSE_TAIL: seq<byte> := [0x61, 0x6C, 0x73, 0x65]

  /** One letter is already seen at p; `slack` is what the error offset adds to the bad byte. */
  function ParseWord(t: seq<byte>, p: nat, ev: seq<Event>, tail: seq<byte>, e: Event, slack: nat): Outcome {
    var k := Matched(t, p + 1, tail);
    if k == |tail| then Done(ev + [e], p + 1 + k) else Fail(ev, InvalidValue, p + 1 + k + slack)
  }

  // --- strings ---

  /** The reader's escape table: 0 where a letter has no single-letter escape. */
  function Unescape(e: byte): byte {
    if e == QUOTE || e == SLASH || e == BACKSLASH then e
    else if e == 0x62 then 0x08
    else if e == 0x66 then 0x0C
    else if e == 0x6E then 0x0A
    else if e == 0x72 then 0x0D
    else if e == 0x74 then 0x09
    else 0
  }

  datatype Hex = Hex(value: nat) | BadHex(offset: nat)

  function ParseHex4(t: seq<byte>, p: nat, i: nat, acc: nat): (r: Hex)
    requires i <= 4
    decreases 4 - i
  {
    if i == 4 then Hex(acc)
    else if IsHexDigit(Peek(t, p + i)) then ParseHex4(t, p, i + 1, acc * 16 + HexValue(Peek(t, p + i)))
    else BadHex(p + i)
  }

  datatype Escape = CodePoint(value: nat, pos: nat) | BadEscape(error: Error, offset: int)

  /** The part of a \u escape after the u: four digits, and a second escape after a high surrogate. */
  function ParseUnicode(t: seq<byte>, p: nat): Escape {
    match ParseHex4(t, p, 0, 0)
    case BadHex(off) => BadEscape(BadHexDigit, off)
    case Hex(hi) =>
      if 0xD800 <= hi <= 0xDBFF then
        if Peek(t, p + 4) != BACKSLASH then BadEscape(MissingLowSurrogate, p + 3)
        else if Peek(t, p + 5) != LOWER_U then BadEscape(MissingLowSurrogate, p + 4)
        else
          match ParseHex4(t, p + 6, 0, 0)
          case BadHex(off) => BadEscape(BadHexDigit, off)
          case Hex(lo) =>
            if lo < 0xDC00 || lo > 0xDFFF then BadEscape(BadLowSurrogate, p + 8)
            else CodePoint((hi - 0xD800) * 0x400 + (lo - 0xDC00) + 0x10000, p + 10)
      else CodePoint(hi, p + 4)
  }

  /** One turn of the string loop: some bytes to append, the closing quote, or an error. */
  datatype Turn = Put(bytes: seq<byte>, pos: nat) | Close | Bad(error: Error, offset: int)

  /** The turn at p in a string whose opening quote is at `start`. */
  function ParseChar(t: seq<byte>, start: nat, p: nat): (r: Turn)
    ensures r.Put? ==> p < r.pos
    ensures r.Put? || r.Close? ==> p < |t|
  {
    var c := Peek(t, p);
    if c == BACKSLASH then
      var e := Peek(t, p + 1);
      if Unescape(e) != 0 then Put([Unescape(e)], p + 2)
      else if e == LOWER_U then
        match ParseUnicode(t, p + 2)
        case BadEscape(err, off) => Bad(err, off)
        case CodePoint(cp, q) => Put(Utf8(cp), q)
      else Bad(UnknownEscape, start - 1)
    else if c == QUOTE then Close
    else if c == 0 then Bad(UnterminatedString, start - 1)
    else if c < 0x20 then Bad(ControlInString, start - 1)
    else Put([c], p + 1)
  }

  datatype Chars = Chars(bytes: seq<byte>, pos: nat) | BadChars(error: Error, offset: int)

  /** The characters of a string from p on, appended to acc. */
  function ParseChars(t: seq<byte>, start: nat, p: nat, acc: seq<byte>): (r: Chars)
    ensures r.Chars? ==> p < r.pos <= |t|
    decreases |t| - p
  {
    match ParseChar(t, start, p)
    case Put(bytes, q) => ParseChars(t, start, q, acc + bytes)
    case Close => Chars(acc, p + 1)
    case Bad(err, off) => BadChars(err, off)
  }

  function ParseString(t: seq<byte>, p: nat, ev: seq<Event>): (r: Outcome)
    ensures r.Done? ==> p < r.pos <= |t|
  {
    match ParseChars(t, p, p + 1, [])
    case Chars(bytes, q) => Done(ev + [String(Copied(bytes))], q)
    case BadChars(err, off) => Fail(ev, err, off)
  }

  // --- numbers ---

  /** The event for a number without fraction and exponent. */
  function IntegerEvent(minus: bool, digits: seq<byte>, literal: seq<byte>): Event {
    var v := Val(digits);
    if v <= Max32(minus) then (if minus then Int(-v) else Uint(v))
    else if v <= Max64(minus) then (if minus then Int64(-v) else Uint64(v))
    else Double(literal)
  }

  /** Where an integer part that starts at p ends: a zero stands alone. */
  function WholeEnd(t: seq<byte>, p: nat): (q: nat)
    requires IsDigit(Peek(t, p))
    ensures p < q <= |t| && AllDigits(t[p..q])
  {
    if Peek(t, p) == ZERO then p + 1 else DigitsEnd(t, p)
  }

  function ParseNumber(huge: Rounding, t: seq<byte>, p: nat, ev: seq<Event>): (r: Outcome)
    ensures r.Done? ==> p < r.pos <= |t|
  {
    var minus := Peek(t, p) == MINUS;
    var p0 := if minus then p + 1 else p;
    if !IsDigit(Peek(t, p0)) then Fail(ev, ExpectValue, p)
    else
      var p1 := WholeEnd(t, p0);
      if TooHuge(huge, minus, t[p0..p1]) then Fail(ev, NumberTooBig, p)
      else ParseFraction(t, p, p1, ev, IntegerEvent(minus, t[p0..p1], t[p..p1]))
  }

  /** The fraction at p, if any, and the rest of the number that starts at `start`; `plain` is
      the event when neither a fraction nor an exponent is present. */
  function ParseFraction(t: seq<byte>, start: nat, p: nat, ev: seq<Event>, plain: Event): (r: Outcome)
    requires start < p <= |t|
    ensures r.Done? ==> start < r.pos <= |t|
  {
    if Peek(t, p) != DOT then ParseExponent(t, start, p, ev, Some(plain))
    else if !IsDigit(Peek(t, p + 1)) then Fail(ev, NoFractionDigit, start)
    else ParseExponent(t, start, DigitsEnd(t, p + 1), ev, None)
  }

  /** The exponent at p, if any; `plain` is there when no fraction was. */
  function ParseExponent(t: seq<byte>, start: nat, p: nat, ev: seq<Event>, plain: Option<Event>): (r: Outcome)
    requires start < p <= |t|
    ensures r.Done? ==> start < r.pos <= |t|
  {
    if Peek(t, p) == LOWER_E || Peek(t, p) == UPPER_E then
      var p1 := if Peek(t, p + 1) == PLUS || Peek(t, p + 1) == MINUS then p + 2 else p + 1;
      if !IsDigit(Peek(t, p1)) then Fail(ev, NoExponentDigit, p1)
      else
        var p2 := DigitsEnd(t, p1);
        if Val(t[p1..p2]) > 308 then Fail(ev, NumberTooBig, start)
        else Done(ev + [Double(t[start..p2])], p2)
    else if plain.Some? then Done(ev + [plain.value], p)
    else Done(ev + [Double(t[start..p])], p)
  }

  // --- values ---

  /** What follows a member or an element: a comma and more, the closing bracket, or an error. */
  datatype Separator = More(pos: nat) | End(pos: nat) | NoSeparator(offset: nat)

  function TakeSeparator(t: seq<byte>, p: nat, close: byte): Separator {
    if Peek(t, p) == COMMA then More(SkipWs(t, p + 1))
    else if Peek(t, p) == close then End(p + 1)
    else NoSeparator(p + 1)
  }

  function ParseValue(huge: Rounding, t: seq<byte>, p: nat, ev: seq<Event>): (r: Outcome)
    ensures r.Done? ==> p < r.pos <= |t|
    decreases |t| - p, 2
  {
    var c := Peek(t, p);
    if c == 0x6E then ParseWord(t, p, ev, NULL_TAIL, Null, 0)
    else if c == 0x74 then ParseWord(t, p, ev, TRUE_TAIL, Bool(true), 1)
    else if c == 0x66 then ParseWord(t, p, ev, FALSE_TAIL, Bool(false), 0)
    else if c == QUOTE then ParseString(t, p, ev)
    else if c == LBRACE then ParseObject(huge, t, p, ev)
    else if c == LBRACKET then ParseArray(huge, t, p, ev)
    else ParseNumber(huge, t, p, ev)
  }

  function ParseObject(huge: Rounding, t: seq<byte>, p: nat, ev: seq<Event>): (r: Outcome)
    requires Peek(t, p) == LBRACE
    ensures r.Done? ==> p < r.pos <= |t|
    decreases |t| - p, 1
  {
    var q := SkipWs(t, p + 1);
    if Peek(t, q) == RBRACE then Done(ev + [StartObject] + [EndObject(0)], q + 1)
    else ParseMembers(huge, t, q, ev + [StartObject], 0)
  }

  /** A member at p and the whitespace after it. */
  function ParseMember(huge: Rounding, t: seq<byte>, p: nat, ev: seq<Event>): (r: Outcome)
    ensures r.Done? ==> p < r.pos <= |t|
    decreases |t| - p, 3
  {
    if Peek(t, p) != QUOTE then Fail(ev, NameNotString, p)
    else
      match ParseString(t, p, ev)
      case Fail(ev1, err, off) => Fail(ev1, err, off)
      case Done(ev1, q) => ParseMemberValue(huge, t, SkipWs(t, q), ev1)
  }

  /** The colon at p, the value after it, and the whitespace after that. */
  function ParseMemberValue(huge: Rounding, t: seq<byte>, p: nat, ev: seq<Event>): (r: Outcome)
    ensures r.Done? ==> p < r.pos <= |t|
    decreases |t| - p, 3
  {
    if Peek(t, p) != COLON then Fail(ev, MissingColon, p + 1)
    else
      match ParseValue(huge, t, SkipWs(t, p + 1), ev)
      case Fail(ev1, err, off) => Fail(ev1, err, off)
      case Done(ev1, q) => Done(ev1, SkipWs(t, q))
  }

  /** The member loop of ParseObject, n members read. */
  function ParseMembers(huge: Rounding, t: seq<byte>, p: nat, ev: seq<Event>, n: nat): (r: Outcome)
    ensures r.Done? ==> p < r.pos <= |t|
    decreases |t| - p, 4
  {
    match ParseMember(huge, t, p, ev)
    case Fail(ev1, err, off) => Fail(ev1, err, off)
    case Done(ev1, sep) =>
      match TakeSeparator(t, sep, RBRACE)
      case More(q) => ParseMembers(huge, t, q, ev1, n + 1)
      case End(q) => Done(ev1 + [EndObject(n + 1)], q)
      case NoSeparator(off) => Fail(ev1, MemberSeparator, off)
  }

  function ParseArray(huge: Rounding, t: seq<byte>, p: nat, ev: seq<Event>): (r: Outcome)
    requires Peek(t, p) == LBRACKET
    ensures r.Done? ==> p < r.pos <= |t|
    decreases |t| - p, 1
  {
    var q := SkipWs(t, p + 1);
    if Peek(t, q) == RBRACKET then Done(ev + [StartArray] + [EndArray(0)], q + 1)
    else ParseElements(huge, t, q, ev + [StartArray], 0)
  }

  /** The element loop of ParseArray, n elements read. */
  function ParseElements(huge: Rounding, t: seq<byte>, p: nat, ev: seq<Event>, n: nat): (r: Outcome)
    ensures r.Done? ==> p < r.pos <= |t|
    decreases |t| - p, 3
  {
    match ParseValue(huge, t, p, ev)
    case Fail(ev1, err, off) => Fail(ev1, err, off)
    case Done(ev1, q) =>
      match TakeSeparator(t, SkipWs(t, q), RBRACKET)
      case More(q1) => ParseElements(huge, t, q1, ev1, n + 1)
      case End(q1) => Done(ev1 + [EndArray(n + 1)], q1)
      case NoSeparator(off) => Fail(ev1, ElementSeparator, off)
  }

  function Parse(huge: Rounding, t: seq<byte>): (r: Outcome)
    ensures r.Done? ==> r.pos <= |t|
  {
    var p := SkipWs(t, 0);
    if Peek(t, p) == 0 then Fail([], OnlyWhitespace, p)
    else if Peek(t, p) != LBRACE && Peek(t, p) != LBRACKET then Fail([], ExpectRoot, p)
    else
      match ParseValue(huge, t, p, [])
      case Fail(ev, err, off) => Fail(ev, err, off)
      case Done(ev, q) =>
        if Peek(t, SkipWs(t, q)) != 0 then Fail(ev, TrailingText, SkipWs(t, q)) else Done(ev, SkipWs(t, q))
  }
}
