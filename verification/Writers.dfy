/** The writers of rapidjson/writer.h and rapidjson/prettywriter.h, and Accept driving them: an output
    stream and a stack of levels, updated call by call. */
module Writers {
  import opened Bytes
  import opened Decimal
  import opened Json
  import opened Grammar
  import opened Rendering
  import opened Dom
  import opened Printing

  /** A bracket that is open, and how many values were written in it, names included. */
  datatype Level = Level(inArray: bool, valueCount: nat)

  /** The next value is an element or a member's name, not a member's value. */
  predicate StartsEntry(level: Level) { level.inArray || level.valueCount % 2 == 0 }

  /** acc with what separates the next value from what stands before it. */
  function Led(style: Style, levels: seq<Level>, acc: seq<byte>): seq<byte> {
    if levels == [] then acc
    else
      var level := levels[|levels| - 1];
      if !StartsEntry(level) then acc + [COLON] + ColonGap(style)
      else if level.valueCount > 0 then acc + [COMMA] + Line(style, |levels|)
      else acc + Line(style, |levels|)
  }

  /** The levels with one more value counted in the innermost. */
  function Counted(levels: seq<Level>): (r: seq<Level>)
    ensures |r| == |levels|
  {
    if levels == [] then []
    else
      var level := levels[|levels| - 1];
      levels[..|levels| - 1] + [level.(valueCount := level.valueCount + 1)]
  }

  /** What the writers assert of a value's kind: a bracket at the root, a string for a name. */
  predicate Welcome(levels: seq<Level>, isString: bool, isBracket: bool) {
    if levels == [] then isBracket
    else !levels[|levels| - 1].inArray && levels[|levels| - 1].valueCount % 2 == 0 ==> isString
  }

  predicate WelcomesValue(levels: seq<Level>, v: Value) {
    Welcome(levels, v.VString?, v.VObject? || v.VArray?)
  }

  // --- digit buffers ---

  /** A number below a power of ten has no more digits than that power has zeros. */
  lemma {:induction false} DigitsFit(n: nat, k: nat)
    requires k > 0 && n < TenTo(k)
    ensures |Digits(n)| <= k
  {
    if n >= 10 { DigitsFit(n / 10, k - 1); }
  }

  /** A sign and digits make up the whole text of an integer. */
  lemma IntegerText(i: int, acc: seq<byte>)
    ensures i < 0 ==> acc + [MINUS] + Digits(-i) == acc + NumeralText(NumeralFor(i))
    ensures i >= 0 ==> acc + Digits(i) == acc + NumeralText(NumeralFor(i))
  {}

  function Wrapped32(i: int): int
    requires -TWO31 <= i <= TWO31
  {
    if i == TWO31 then -TWO31 else i
  }

  function Wrapped64(i: int): int
    requires -TWO63 <= i <= TWO63
  {
    if i == TWO63 then -TWO63 else i
  }

  class Writer {
    const style: Style
    const shown: Shown
    var out: seq<byte>
    var levels: seq<Level>
    ghost var log: seq<Event>

    constructor (style: Style, shown: Shown)
      requires Indents(style)
      ensures this.style == style && this.shown == shown && out == [] && levels == [] && log == []
    {
      this.style, this.shown := style, shown;
      out, levels, log := [], [], [];
    }

    method Put(c: byte)
      modifies `out
      ensures out == old(out) + [c]
    {
      out := out + [c];
    }

    method WriteIndent()
      requires style.Pretty?
      modifies `out
      ensures out == old(out) + Indent(style, |levels|)
      ensures |out| == |old(out)| + |levels| * style.indentCount
      ensures forall i | |old(out)| <= i < |out| :: out[i] == style.indentChar
    {
      var count := |levels| * style.indentCount;
      for i := 0 to count
        invariant out == old(out) + Indent(style, |levels|)[..i]
      {
        Put(style.indentChar);
      }
    }

    method NewLine()
      modifies `out
      ensures out == old(out) + Line(style, |levels|)
    {
      if style.Pretty? {
        Put(LF);
        WriteIndent();
      }
    }

    /** Prefix and PrettyPrefix. */
    method Prefix(ghost isString: bool, ghost isBracket: bool)
      requires Welcome(levels, isString, isBracket)
      modifies `out, `levels
      ensures out == Led(style, old(levels), old(out)) && levels == Counted(old(levels))
    {
      if |levels| != 0 {
        var level := levels[|levels| - 1];
        if level.valueCount > 0 {
          if level.inArray {
            Put(COMMA);
          } else {
            Put(if level.valueCount % 2 == 0 then COMMA else COLON);
          }
        }
        if level.inArray || level.valueCount % 2 == 0 {
          NewLine();
        } else if style.Pretty? {
          Put(SPACE);
        }
        levels := levels[|levels| - 1 := level.(valueCount := level.valueCount + 1)];
      }
    }

    // --- scalars ---

    method WriteBytes(s: seq<byte>)
      modifies `out
      ensures out == old(out) + s
    {
      for i := 0 to |s|
        invariant out == old(out) + s[..i]
      {
        Put(s[i]);
      }
    }

    /** The digit loops: least digit first into a buffer that is just large enough, then back out. */
    method WriteDigits(u: nat, size: nat)
      requires size > 0 && u < TenTo(size)
      modifies `out
      ensures out == old(out) + Digits(u)
    {
      ghost var digits := Digits(u);
      DigitsFit(u, size);
      var buffer := new byte[size];
      var p, rest := 1, u / 10;
      buffer[0] := ZERO + u % 10;
      while rest > 0
        invariant 1 <= p <= |digits| && 0 <= rest && (rest == 0 <==> p == |digits|)
        invariant rest > 0 ==> Digits(rest) == digits[..|digits| - p]
        invariant forall k | 0 <= k < p :: buffer[k] == digits[|digits| - 1 - k]
        invariant out == old(out)
        decreases rest
      {
        buffer[p] := ZERO + rest % 10;
        assert buffer[p] == Digits(rest)[|Digits(rest)| - 1];
        p := p + 1;
        rest := rest / 10;
      }
      Drain(buffer, p, digits);
    }

    /** Puts the first n bytes of the buffer, the last one first. */
    method Drain(buffer: array<byte>, n: nat, ghost digits: seq<byte>)
      requires n == |digits| <= buffer.Length
      requires forall k | 0 <= k < n :: buffer[k] == digits[n - 1 - k]
      modifies `out
      ensures out == old(out) + digits
    {
      var p := n;
      assert digits[..0] == [] && digits[..n] == digits;
      while p != 0
        invariant 0 <= p <= n && out == old(out) + digits[..n - p]
      {
        p := p - 1;
        Put(buffer[p]);
      }
    }

    method WriteUint(u: nat)
      requires u < TWO32
      modifies `out
      ensures out == old(out) + Digits(u)
    {
      assert TenTo(10) == 10_000_000_000;
      WriteDigits(u, 10);
    }

    method WriteUint64(u: nat)
      requires u < TWO64
      modifies `out
      ensures out == old(out) + Digits(u)
    {
      assert TenTo(10) == 10_000_000_000;
      assert TenTo(20) == 100_000_000_000_000_000_000;
      WriteDigits(u, 20);
    }

    /** The negation wraps at the least int, and the conversion to unsigned gives its magnitude. */
    method WriteInt(i: int)
      requires -TWO31 <= i < TWO31
      modifies `out
      ensures out == old(out) + NumeralText(NumeralFor(i))
    {
      hide NumeralText, NumeralFor;
      var magnitude := i;
      if i < 0 {
        Put(MINUS);
        magnitude := Wrapped32(-i);
      }
      IntegerText(i, old(out));
      WriteUint(if magnitude < 0 then magnitude + TWO32 else magnitude);
    }

    method WriteInt64(i: int)
      requires -TWO63 <= i < TWO63
      modifies `out
      ensures out == old(out) + NumeralText(NumeralFor(i))
    {
      hide NumeralText, NumeralFor;
      var magnitude := i;
      if i < 0 {
        Put(MINUS);
        magnitude := Wrapped64(-i);
      }
      IntegerText(i, old(out));
      WriteUint64(if magnitude < 0 then magnitude + TWO64 else magnitude);
    }

    method WriteString(s: seq<byte>)
      modifies `out
      ensures out == RenderString(CharsFor(s), old(out))
    {
      Put(QUOTE);
      ghost var target := RenderChars(CharsFor(s), out);
      hide CharFor, CharText;
      for i := 0 to |s|
        invariant RenderChars(CharsFor(s[i..]), out) == target
      {
        NextChar(s, i);
        WriteChar(s[i]);
      }
      Put(QUOTE);
    }

    /** One byte of a string, escaped as the table says. */
    method WriteChar(b: byte)
      modifies `out
      ensures out == old(out) + CharText(CharFor(b))
    {
      if EscapeLetter(b) != 0 {
        Put(BACKSLASH);
        Put(EscapeLetter(b));
        if EscapeLetter(b) == LOWER_U {
          Put(ZERO);
          Put(ZERO);
          Put(HexDigit(b / 16));
          Put(HexDigit(b % 16));
        }
      } else {
        Put(b);
      }
    }

    // --- the handler's calls ---

    method Null()
      requires Welcome(levels, false, false)
      modifies `out, `levels, `log
      ensures out == Render(TNull, Led(style, old(levels), old(out)))
      ensures levels == Counted(old(levels)) && log == old(log) + [Event.Null]
    {
      Prefix(false, false);
      WriteBytes(NULL_WORD);
      log := log + [Event.Null];
    }

    method Bool(b: bool)
      requires Welcome(levels, false, false)
      modifies `out, `levels, `log
      ensures out == Render(if b then TTrue else TFalse, Led(style, old(levels), old(out)))
      ensures levels == Counted(old(levels)) && log == old(log) + [Event.Bool(b)]
    {
      Prefix(false, false);
      WriteBytes(if b then TRUE_WORD else FALSE_WORD);
      log := log + [Event.Bool(b)];
    }

    method Int(i: int)
      requires Welcome(levels, false, false) && -TWO31 <= i < TWO31
      modifies `out, `levels, `log
      ensures out == Render(TNumber(NumeralFor(i)), Led(style, old(levels), old(out)))
      ensures levels == Counted(old(levels)) && log == old(log) + [Event.Int(i)]
    {
      Prefix(false, false);
      WriteInt(i);
      log := log + [Event.Int(i)];
    }

    method Uint(i: nat)
      requires Welcome(levels, false, false) && i < TWO32
      modifies `out, `levels, `log
      ensures out == Render(TNumber(NumeralFor(i)), Led(style, old(levels), old(out)))
      ensures levels == Counted(old(levels)) && log == old(log) + [Event.Uint(i)]
    {
      Prefix(false, false);
      IntegerText(i, out);
      WriteUint(i);
      log := log + [Event.Uint(i)];
    }

    method Int64(i: int)
      requires Welcome(levels, false, false) && -TWO63 <= i < TWO63
      modifies `out, `levels, `log
      ensures out == Render(TNumber(NumeralFor(i)), Led(style, old(levels), old(out)))
      ensures levels == Counted(old(levels)) && log == old(log) + [Event.Int64(i)]
    {
      Prefix(false, false);
      WriteInt64(i);
      log := log + [Event.Int64(i)];
    }

    method Uint64(i: nat)
      requires Welcome(levels, false, false) && i < TWO64
      modifies `out, `levels, `log
      ensures out == Render(TNumber(NumeralFor(i)), Led(style, old(levels), old(out)))
      ensures levels == Counted(old(levels)) && log == old(log) + [Event.Uint64(i)]
    {
      Prefix(false, false);
      IntegerText(i, out);
      WriteUint64(i);
      log := log + [Event.Uint64(i)];
    }

    method Double(literal: seq<byte>)
      requires Welcome(levels, false, false)
      modifies `out, `levels, `log
      ensures out == Led(style, old(levels), old(out)) + shown(literal)
      ensures levels == Counted(old(levels)) && log == old(log) + [Event.Double(literal)]
    {
      Prefix(false, false);
      WriteBytes(shown(literal));
      log := log + [Event.Double(literal)];
    }

    method String(s: seq<byte>)
      requires Welcome(levels, true, false)
      modifies `out, `levels, `log
      ensures out == RenderString(CharsFor(s), Led(style, old(levels), old(out)))
      ensures levels == Counted(old(levels)) && log == old(log) + [Event.String(Copied(s))]
    {
      Prefix(true, false);
      WriteString(s);
      log := log + [Event.String(Copied(s))];
    }

    method StartObject()
      requires Welcome(levels, false, true)
      modifies `out, `levels, `log
      ensures out == Led(style, old(levels), old(out)) + [LBRACE]
      ensures levels == Counted(old(levels)) + [Level(false, 0)] && log == old(log) + [Event.StartObject]
    {
      Prefix(false, true);
      levels := levels + [Level(false, 0)];
      Put(LBRACE);
      log := log + [Event.StartObject];
    }

    /** Closes the bracket: the pretty writer on a new line, unless nothing was written in it. */
    method EndObject(memberCount: nat)
      requires levels != [] && !levels[|levels| - 1].inArray
      modifies `out, `levels, `log
      ensures levels == old(levels)[..|old(levels)| - 1] && log == old(log) + [Event.EndObject(memberCount)]
      ensures var empty := old(levels)[|levels|].valueCount == 0;
        out == (if empty then old(out) else old(out) + Line(style, |levels|)) + [RBRACE]
    {
      var empty := levels[|levels| - 1].valueCount == 0;
      levels := levels[..|levels| - 1];
      if !empty { NewLine(); }
      Put(RBRACE);
      log := log + [Event.EndObject(memberCount)];
    }

    method StartArray()
      requires Welcome(levels, false, true)
      modifies `out, `levels, `log
      ensures out == Led(style, old(levels), old(out)) + [LBRACKET]
      ensures levels == Counted(old(levels)) + [Level(true, 0)] && log == old(log) + [Event.StartArray]
    {
      Prefix(false, true);
      levels := levels + [Level(true, 0)];
      Put(LBRACKET);
      log := log + [Event.StartArray];
    }

    method EndArray(elementCount: nat)
      requires levels != [] && levels[|levels| - 1].inArray
      modifies `out, `levels, `log
      ensures levels == old(levels)[..|old(levels)| - 1] && log == old(log) + [Event.EndArray(elementCount)]
      ensures var empty := old(levels)[|levels|].valueCount == 0;
        out == (if empty then old(out) else old(out) + Line(style, |levels|)) + [RBRACKET]
    {
      var empty := levels[|levels| - 1].valueCount == 0;
      levels := levels[..|levels| - 1];
      if !empty { NewLine(); }
      Put(RBRACKET);
      log := log + [Event.EndArray(elementCount)];
    }
  }

  /** The characters written for the rest of a string. */
  lemma NextChar(s: seq<byte>, i: nat)
    requires i < |s|
    ensures CharsFor(s[i..]) != [] && CharsFor(s[i..])[0] == CharFor(s[i])
    ensures CharsFor(s[i..])[1..] == CharsFor(s[i + 1..])
  {}
}
