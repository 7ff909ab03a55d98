/** The grammar of section 2 of RFC 4627 at byte level. The syntax trees are typed so that every
    tree is one of the grammar; a tree has a text, a place where it stands, and the events it
    stands for. `Readable` adds the limits of the reader. */
module Grammar {
  import opened Options
  import opened Bytes
  import opened Decimal
  import opened Json
  import opened Utf
  import opened Limits

  type Gap = s: seq<byte> | AllWs(s)

  type Digits1 = s: seq<byte> | |s| > 0 && AllDigits(s) witness [ZERO]

  // --- strings ---

  type Hex4 = h: seq<byte> | |h| == 4 && forall i | 0 <= i < 4 :: IsHexDigit(h[i])
    witness [ZERO, ZERO, ZERO, ZERO]

  function HexNumber(h: Hex4): (n: nat)
    ensures n <= 0xFFFF
  {
    ((HexValue(h[0]) * 16 + HexValue(h[1])) * 16 + HexValue(h[2])) * 16 + HexValue(h[3])
  }

  predicate IsHigh(h: Hex4) { 0xD800 <= HexNumber(h) <= 0xDBFF }

  predicate IsLow(h: Hex4) { 0xDC00 <= HexNumber(h) <= 0xDFFF }

  type Unescaped = b: byte | b >= 0x20 && b != QUOTE && b != BACKSLASH witness 0x61

  /** The letters after a backslash, u apart: quote, backslash, slash, b, f, n, r, t. */
  type Letter = e: byte | e in {QUOTE, BACKSLASH, SLASH, 0x62, 0x66, 0x6E, 0x72, 0x74} witness QUOTE

  /** The byte that a one-letter escape stands for. */
  function Escaped(e: Letter): byte {
    match e
    case 0x62 => 0x08
    case 0x66 => 0x0C
    case 0x6E => 0x0A
    case 0x72 => 0x0D
    case 0x74 => 0x09
    case _ => e
  }

  type High = h: Hex4 | IsHigh(h) witness [0x44, 0x38, ZERO, ZERO]

  type Low = h: Hex4 | IsLow(h) witness [0x44, 0x43, ZERO, ZERO]

  /** One character of a string: itself, a one-letter escape, a \u escape, or a surrogate pair. */
  datatype Char = Raw(b: Unescaped) | Short(e: Letter) | Unit(hex: Hex4) | Pair(hi: High, lo: Low)

  function CharText(c: Char): (s: seq<byte>)
    ensures |s| > 0
  {
    match c
    case Raw(b) => [b]
    case Short(e) => [BACKSLASH, e]
    case Unit(hex) => [BACKSLASH, LOWER_U] + hex
    case Pair(hi, lo) => [BACKSLASH, LOWER_U] + (hi + ([BACKSLASH, LOWER_U] + lo))
  }

  /** The code point of a surrogate pair. */
  function Joined(hi: nat, lo: nat): (cp: nat)
    requires 0xD800 <= hi <= 0xDBFF && 0xDC00 <= lo <= 0xDFFF
    ensures 0x10000 <= cp <= 0x10FFFF
  {
    (hi - 0xD800) * 0x400 + (lo - 0xDC00) + 0x10000
  }

  function CharBytes(c: Char): seq<byte> {
    match c
    case Raw(b) => [b]
    case Short(e) => [Escaped(e)]
    case Unit(hex) => Utf8(HexNumber(hex))
    case Pair(hi, lo) => Utf8(Joined(HexNumber(hi), HexNumber(lo)))
  }

  /** The reader takes a high surrogate only as the first half of a pair. */
  predicate CharsReadable(cs: seq<Char>) {
    forall i | 0 <= i < |cs| :: cs[i].Unit? ==> !IsHigh(cs[i].hex)
  }

  function CharsText(cs: seq<Char>): seq<byte> {
    if cs == [] then [] else CharText(cs[0]) + CharsText(cs[1..])
  }

  /** The bytes a string denotes, after those in acc. */
  function CharsBytes(cs: seq<Char>, acc: seq<byte>): seq<byte>
    decreases |cs|
  {
    if cs == [] then acc else CharsBytes(cs[1..], acc + CharBytes(cs[0]))
  }

  function StringText(cs: seq<Char>): seq<byte> { [QUOTE] + (CharsText(cs) + [QUOTE]) }

  // --- numbers ---

  type Mark = c: byte | c == LOWER_E || c == UPPER_E witness LOWER_E

  type Sign = s: seq<byte> | s == [] || s == [PLUS] || s == [MINUS]

  datatype Exponent = Exponent(mark: Mark, sign: Sign, digits: Digits1)

  /** The digits of an integer part: no leading zero. */
  type Whole = s: seq<byte> | |s| > 0 && AllDigits(s) && (s[0] == ZERO ==> |s| == 1) witness [ZERO]

  datatype Numeral = Numeral(minus: bool, whole: Whole, frac: Option<Digits1>, exp: Option<Exponent>)

  /** The range limits of the reader: an exponent up to 308 in magnitude, no overlong integer part. */
  predicate NumeralReadable(huge: Rounding, n: Numeral) {
    && !TooHuge(huge, n.minus, n.whole)
    && (n.exp.Some? ==> Val(n.exp.value.digits) <= 308)
  }

  function SignText(n: Numeral): seq<byte> { if n.minus then [MINUS] else [] }

  function FracText(n: Numeral): seq<byte> { if n.frac.Some? then [DOT] + n.frac.value else [] }

  function ExpText(n: Numeral): seq<byte> {
    if n.exp.Some? then [n.exp.value.mark] + (n.exp.value.sign + n.exp.value.digits) else []
  }

  function NumeralText(n: Numeral): seq<byte> { SignText(n) + (n.whole + (FracText(n) + ExpText(n))) }

  /** The event of a numeral: the smallest of int, int64, unsigned, uint64 for its sign that holds it,
      or a double. */
  function NumeralEvent(n: Numeral): Event {
    var v := Val(n.whole);
    if n.frac.Some? || n.exp.Some? then Double(NumeralText(n))
    else if n.minus && -v >= -0x8000_0000 then Int(-v)
    else if n.minus && -v >= -0x8000_0000_0000_0000 then Int64(-v)
    else if !n.minus && v < 0x1_0000_0000 then Uint(v)
    else if !n.minus && v < 0x1_0000_0000_0000_0000 then Uint64(v)
    else Double(NumeralText(n))
  }

  // --- values ---

  datatype Tree =
    | TNull | TTrue | TFalse
    | TString(chars: seq<Char>)
    | TNumber(num: Numeral)
    | TEmptyObject(gap: Gap)
    | TObject(gap: Gap, members: Members)
    | TEmptyArray(gap: Gap)
    | TArray(gap: Gap, elements: Elements)

  /** A member: its name, the whitespace around the colon, its value, the whitespace after it. */
  datatype Member = Member(name: seq<Char>, gap1: Gap, gap2: Gap, value: Tree, after: Gap)

  datatype Members = LastMember(m: Member) | MoreMembers(m: Member, gap: Gap, rest: Members)

  datatype Elements = LastElement(v: Tree, after: Gap) | MoreElements(v: Tree, after: Gap, gap: Gap, rest: Elements)

  /** The tree keeps the reader's own limits, on surrogates and on the range of numbers. */
  predicate Readable(huge: Rounding, tree: Tree) {
    match tree
    case TString(cs) => CharsReadable(cs)
    case TNumber(n) => NumeralReadable(huge, n)
    case TObject(_, ms) => MembersReadable(huge, ms)
    case TArray(_, es) => ElementsReadable(huge, es)
    case _ => true
  }

  predicate MembersReadable(huge: Rounding, ms: Members) {
    CharsReadable(ms.m.name) && Readable(huge, ms.m.value) &&
    (ms.MoreMembers? ==> MembersReadable(huge, ms.rest))
  }

  predicate ElementsReadable(huge: Rounding, es: Elements) {
    Readable(huge, es.v) && (es.MoreElements? ==> ElementsReadable(huge, es.rest))
  }

  const NULL_WORD: seq<byte> := [0x6E, 0x75, 0x6C, 0x6C]
  const TRUE_WORD: seq<byte> := [0x74, 0x72, 0x75, 0x65]
  const FALSE_WORD: seq<byte> := [0x66, 0x61, 0x6C, 0x73, 0x65]

  function TreeText(tree: Tree): seq<byte> {
    match tree
    case TNull => NULL_WORD
    case TTrue => TRUE_WORD
    case TFalse => FALSE_WORD
    case TString(cs) => StringText(cs)
    case TNumber(n) => NumeralText(n)
    case TEmptyObject(gap) => [LBRACE] + (gap + [RBRACE])
    case TObject(gap, ms) => [LBRACE] + (gap + MembersText(ms))
    case TEmptyArray(gap) => [LBRACKET] + (gap + [RBRACKET])
    case TArray(gap, es) => [LBRACKET] + (gap + ElementsText(es))
  }

  function MemberText(m: Member): seq<byte> {
    StringText(m.name) + (m.gap1 + ([COLON] + (m.gap2 + (TreeText(m.value) + m.after))))
  }

  /** The members with the closing brace. */
  function MembersText(ms: Members): seq<byte> {
    match ms
    case LastMember(m) => MemberText(m) + [RBRACE]
    case MoreMembers(m, gap, rest) => MemberText(m) + ([COMMA] + (gap + MembersText(rest)))
  }

  /** The elements with the closing bracket. */
  function ElementsText(es: Elements): seq<byte> {
    match es
    case LastElement(v, after) => TreeText(v) + (after + [RBRACKET])
    case MoreElements(v, after, gap, rest) => TreeText(v) + (after + ([COMMA] + (gap + ElementsText(rest))))
  }

  // --- events, appended to ev ---

  function Emit(tree: Tree, ev: seq<Event>): seq<Event> {
    match tree
    case TNull => ev + [Null]
    case TTrue => ev + [Bool(true)]
    case TFalse => ev + [Bool(false)]
    case TString(cs) => ev + [String(Copied(CharsBytes(cs, [])))]
    case TNumber(n) => ev + [NumeralEvent(n)]
    case TEmptyObject(_) => ev + [StartObject] + [EndObject(0)]
    case TObject(_, ms) => EmitMembers(ms, ev + [StartObject], 0)
    case TEmptyArray(_) => ev + [StartArray] + [EndArray(0)]
    case TArray(_, es) => EmitElements(es, ev + [StartArray], 0)
  }

  function EmitMember(m: Member, ev: seq<Event>): seq<Event> {
    Emit(m.value, ev + [String(Copied(CharsBytes(m.name, [])))])
  }

  function EmitMembers(ms: Members, ev: seq<Event>, n: nat): seq<Event> {
    match ms
    case LastMember(m) => EmitMember(m, ev) + [EndObject(n + 1)]
    case MoreMembers(m, _, rest) => EmitMembers(rest, EmitMember(m, ev), n + 1)
  }

  function EmitElements(es: Elements, ev: seq<Event>, n: nat): seq<Event> {
    match es
    case LastElement(v, _) => Emit(v, ev) + [EndArray(n + 1)]
    case MoreElements(v, _, _, rest) => EmitElements(rest, Emit(v, ev), n + 1)
  }

  /** A whole text: an object or array with whitespace around it. */
  datatype Root = Root(before: Gap, tree: Tree, after: Gap)

  predicate IsRoot(tree: Tree) { tree.TObject? || tree.TEmptyObject? || tree.TArray? || tree.TEmptyArray? }

  function RootText(r: Root): seq<byte> { r.before + (TreeText(r.tree) + r.after) }
}
