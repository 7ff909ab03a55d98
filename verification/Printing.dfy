/** The text of a value as the two writers of rapidjson lay it out: as the syntax tree whose text
    it is. Also what Accept sends to any handler. */
module Printing {
  import opened Options
  import opened Bytes
  import opened Decimal
  import opened Json
  import opened Utf
  import opened Grammar
  import opened Dom

  /** The plain writer, or the pretty writer with its indentation. */
  datatype Style = Compact | Pretty(indentChar: byte, indentCount: nat)

  /** What %g gives for the double that a literal denotes. */
  type Shown = seq<byte> -> seq<byte>

  predicate Indents(style: Style) { style.Pretty? ==> IsWs(style.indentChar) }

  // --- strings ---

  /** The writer's escape table: the letter after the backslash, or 0 for a byte written as it is. */
  function EscapeLetter(b: byte): byte {
    if b == QUOTE || b == BACKSLASH then b
    else if b == 0x08 then 0x62
    else if b == 0x09 then 0x74
    else if b == 0x0A then 0x6E
    else if b == 0x0C then 0x66
    else if b == 0x0D then 0x72
    else if b < 0x20 then LOWER_U
    else 0
  }

  /** The digits 0123456789ABCDEF. */
  function HexDigit(v: nat): (c: byte)
    requires v < 16
    ensures IsHexDigit(c) && HexValue(c) == v
  {
    if v < 10 then ZERO + v else 0x41 + (v - 10)
  }

  /** How a byte of a string is written. */
  function CharFor(b: byte): Char {
    if EscapeLetter(b) == 0 then Raw(b)
    else if EscapeLetter(b) == LOWER_U then Unit([ZERO, ZERO, HexDigit(b / 16), HexDigit(b % 16)])
    else Short(EscapeLetter(b))
  }

  function CharsFor(s: seq<byte>): (cs: seq<Char>)
    ensures |cs| == |s|
  {
    if s == [] then [] else [CharFor(s[0])] + CharsFor(s[1..])
  }

  // --- numbers ---

  /** The integer a number holds. */
  function IntegerOf(n: Number): int { if n.isUint64 then n.bits else Signed64(n.bits) }

  /** The number is one of the integer constructors'. */
  predicate IsInteger(n: Number) { -TWO63 <= IntegerOf(n) < TWO64 && n == Canonical(IntegerOf(n)) }

  function NumeralFor(z: int): (n: Numeral)
    ensures n.frac.None? && n.exp.None?
  {
    ValDigits(if z < 0 then -z else z);
    Numeral(z < 0, Digits(if z < 0 then -z else z), None, None)
  }

  // --- values ---

  /** A value with copied strings and integers only: what a writer prints without loss. */
  predicate Plain(v: Value)
    decreases v
  {
    match v
    case VNumber(n) => IsInteger(n)
    case VDouble(_) => false
    case VString(s) => s.Copied?
    case VObject(fs) => forall i | 0 <= i < |fs| :: PlainField(fs[i])
    case VArray(vs) => forall i | 0 <= i < |vs| :: Plain(vs[i])
    case _ => true
  }

  /** A value whose strings are at hand and whose numbers are the constructors': what a writer prints. */
  predicate Printable(v: Value)
    decreases v
  {
    match v
    case VNumber(n) => IsInteger(n)
    case VString(s) => s.Copied?
    case VObject(fs) => forall i | 0 <= i < |fs| :: PrintableField(fs[i])
    case VArray(vs) => forall i | 0 <= i < |vs| :: Printable(vs[i])
    case _ => true
  }

  predicate PrintableField(f: Field)
    decreases f
  {
    f.name.Copied? && Printable(f.value)
  }

  function Indent(style: Style, depth: nat): (s: seq<byte>)
    requires style.Pretty?
  {
    seq(depth * style.indentCount, i => style.indentChar)
  }

  /** A new line indented for the given depth, where the pretty writer puts one. */
  function Line(style: Style, depth: nat): seq<byte> {
    if style.Pretty? then [LF] + Indent(style, depth) else []
  }

  function LineGap(style: Style, depth: nat): Gap
    requires Indents(style)
  {
    Line(style, depth)
  }

  /** What stands between the colon and a member's value. */
  function ColonGap(style: Style): Gap { if style.Pretty? then [SPACE] else [] }

  /** The syntax tree of a value's text, `depth` brackets inside. */
  function TreeFor(style: Style, depth: nat, v: Value): Tree
    requires Indents(style) && Plain(v)
    decreases v
  {
    match v
    case VNull => TNull
    case VBool(b) => if b then TTrue else TFalse
    case VNumber(n) => TNumber(NumeralFor(IntegerOf(n)))
    case VString(s) => TString(CharsFor(s.bytes))
    case VObject(fs) =>
      if fs == [] then TEmptyObject([])
      else TObject(LineGap(style, depth + 1), MembersFor(style, depth, fs))
    case VArray(vs) =>
      if vs == [] then TEmptyArray([])
      else TArray(LineGap(style, depth + 1), ElementsFor(style, depth, vs))
  }

  predicate PlainField(f: Field)
    decreases f
  {
    f.name.Copied? && Plain(f.value)
  }

  function MemberFor(style: Style, depth: nat, f: Field, after: Gap): Member
    requires Indents(style) && PlainField(f)
    decreases f
  {
    Member(CharsFor(f.name.bytes), [], ColonGap(style), TreeFor(style, depth + 1, f.value), after)
  }

  function MembersFor(style: Style, depth: nat, fs: seq<Field>): Members
    requires Indents(style) && |fs| > 0 && forall i | 0 <= i < |fs| :: PlainField(fs[i])
    decreases fs
  {
    if |fs| == 1 then LastMember(MemberFor(style, depth, fs[0], LineGap(style, depth)))
    else
      MoreMembers(MemberFor(style, depth, fs[0], []), LineGap(style, depth + 1), MembersFor(style, depth, fs[1..]))
  }

  function ElementsFor(style: Style, depth: nat, vs: seq<Value>): Elements
    requires Indents(style) && |vs| > 0
    requires forall i | 0 <= i < |vs| :: Plain(vs[i])
    decreases vs
  {
    var value := TreeFor(style, depth + 1, vs[0]);
    if |vs| == 1 then LastElement(value, LineGap(style, depth))
    else MoreElements(value, [], LineGap(style, depth + 1), ElementsFor(style, depth, vs[1..]))
  }

  // --- the handler calls of Accept ---

  /** The calls Accept makes for a value, after those in ev. */
  function Sent(v: Value, ev: seq<Event>): seq<Event>
    decreases v
  {
    match v
    case VNull => ev + [Null]
    case VBool(b) => ev + [Bool(b)]
    case VNumber(n) => ev + [NumberEvent(n)]
    case VDouble(literal) => ev + [Double(literal)]
    case VString(s) => ev + [String(s)]
    case VObject(fs) => SentFields(fs, ev + [StartObject]) + [EndObject(|fs|)]
    case VArray(vs) => SentElements(vs, ev + [StartArray]) + [EndArray(|vs|)]
  }

  function SentField(f: Field, ev: seq<Event>): seq<Event>
    decreases f
  {
    Sent(f.value, ev + [String(f.name)])
  }

  function SentFields(fs: seq<Field>, ev: seq<Event>): seq<Event>
    decreases fs
  {
    if fs == [] then ev else SentFields(fs[1..], SentField(fs[0], ev))
  }

  function SentElements(vs: seq<Value>, ev: seq<Event>): seq<Event>
    decreases vs
  {
    if vs == [] then ev else SentElements(vs[1..], Sent(vs[0], ev))
  }
}
