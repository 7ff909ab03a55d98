/** The reader of rapidjson/reader.h: a cursor over a NUL-terminated buffer, in the copying mode and
    in the in-place mode, proved against the functions of ReaderSpec. */
module Readers {
  import opened Options
  import opened Bytes
  import opened Decimal
  import opened Json
  import opened Utf
  import opened Limits
  import opened ReaderSpec
  import opened Dom
  import opened Documents
  import opened Handover

  newtype uint32 = x: int | 0 <= x < 0x1_0000_0000
  newtype uint64 = x: int | 0 <= x < 0x1_0000_0000_0000_0000

  class Reader {
    const insitu: bool
    const huge: Rounding
    const src: array<byte>
    const doc: Document
    ghost const text: seq<byte>
    var pos: nat
    var stack: seq<byte>
    var parseError: Option<Error>
    var errorOffset: int
    ghost var log: seq<Event>
    ghost var settled: nat

    /** The events handed over mean the events of the log; the copying mode never touches the buffer. */
    ghost predicate Sound()
      reads this, src, doc
    {
      && |text| < src.Length && 0 !in text && doc.Valid()
      && settled <= src.Length && Meaning(doc.log, src[..], settled) == Some(log)
      && (!insitu ==> doc.log == log && Unread(0))
    }

    /** From q on, the buffer still holds the text and its terminator. */
    ghost predicate Unread(q: nat)
      requires |text| < src.Length
      reads this, src
    {
      forall k | q <= k <= |text| :: src[k] == Peek(text, k)
    }

    ghost predicate Valid()
      reads this, src, doc
    {
      Sound() && settled <= pos <= |text| && Unread(pos) && stack == []
    }

    /** The call came out as the specification says. */
    ghost predicate Agrees(ok: bool, r: Outcome)
      reads this
    {
      match r
      case Done(ev, p) => ok && log == ev && pos == p
      case Fail(ev, e, off) => !ok && log == ev && parseError == Some(e) && errorOffset == off
    }

    constructor (insitu: bool, huge: Rounding, src: array<byte>, doc: Document, ghost text: seq<byte>)
      requires |text| < src.Length && 0 !in text && src[..|text|] == text && src[|text|] == 0
      requires doc.Valid() && doc.log == []
      ensures this.insitu == insitu && this.huge == huge && this.src == src && this.doc == doc && this.text == text
      ensures Valid() && log == [] && pos == 0 && stack == []
    {
      this.insitu, this.huge, this.src, this.doc, this.text := insitu, huge, src, doc, text;
      pos, stack, parseError, errorOffset, log, settled := 0, [], None, 0, [], 0;
      new;
      forall k | 0 <= k <= |text| ensures src[k] == Peek(text, k) {
        if k < |text| { assert src[k] == src[..|text|][k]; }
      }
    }

    method SetError(e: Error, offset: int)
      modifies `parseError, `errorOffset
      ensures parseError == Some(e) && errorOffset == offset
    {
      parseError, errorOffset := Some(e), offset;
    }

    /** Reads the byte at the cursor; past the terminator nothing is ever read. */
    method Take() returns (c: byte)
      requires |text| < src.Length && pos <= |text| && Unread(pos)
      modifies `pos
      ensures pos == old(pos) + 1 && c == Peek(text, old(pos))
    {
      c := src[pos];
      pos := pos + 1;
    }

    method SkipWhitespace()
      requires Valid()
      modifies `pos
      ensures Valid() && pos == SkipWs(text, old(pos))
    {
      var s := pos;
      while src[s] == SPACE || src[s] == LF || src[s] == CR || src[s] == TAB
        invariant pos <= s <= |text| && SkipWs(text, s) == SkipWs(text, pos)
        decreases |text| - s
      {
        s := s + 1;
      }
      pos := s;
    }

    // --- strings ---

    /** Four hexadecimal digits at s. */
    method ParseHex4(s: nat) returns (ok: bool, codepoint: nat, q: nat)
      requires |text| < src.Length && s <= |text| && Unread(s)
      modifies `parseError, `errorOffset
      ensures q <= |text| + 1
      ensures match ReaderSpec.ParseHex4(text, s, 0, 0)
        case Hex(v) => ok && codepoint == v && q == s + 4 <= |text|
        case BadHex(off) => !ok && parseError == Some(BadHexDigit) && errorOffset == off
    {
      codepoint, q := 0, s;
      ghost var target := ReaderSpec.ParseHex4(text, s, 0, 0);
      for i := 0 to 4
        invariant q == s + i <= |text|
        invariant ReaderSpec.ParseHex4(text, s, i, codepoint) == target
      {
        var c := src[q];
        ghost var before := codepoint;
        q := q + 1;
        codepoint := codepoint * 16 + c;
        if ZERO <= c <= NINE {
          codepoint := codepoint - ZERO;
        } else if 0x41 <= c <= 0x46 {
          codepoint := codepoint - (0x41 - 10);
        } else if 0x61 <= c <= 0x66 {
          codepoint := codepoint - (0x61 - 10);
        } else {
          SetError(BadHexDigit, q - 1);
          return false, codepoint, q;
        }
        assert codepoint == before * 16 + HexValue(c);
      }
      ok := true;
    }

    /** A \u escape after its u, with the second half of a surrogate pair. */
    method ParseUnicode(s: nat) returns (ok: bool, codepoint: nat, q: nat)
      requires |text| < src.Length && s <= |text| && Unread(s)
      modifies `parseError, `errorOffset
      ensures match ReaderSpec.ParseUnicode(text, s)
        case CodePoint(cp, p) => ok && codepoint == cp <= 0x10FFFF && q == p && s < q <= |text|
        case BadEscape(err, off) => !ok && parseError == Some(err) && errorOffset == off
    {
      ok, codepoint, q := ParseHex4(s);
      if !ok { return; }
      if 0xD800 <= codepoint <= 0xDBFF {
        q := q + 1;
        if src[q - 1] != BACKSLASH {
          SetError(MissingLowSurrogate, q - 2);
          return false, codepoint, q;
        }
        q := q + 1;
        if src[q - 1] != LOWER_U {
          SetError(MissingLowSurrogate, q - 2);
          return false, codepoint, q;
        }
        var codepoint2;
        ok, codepoint2, q := ParseHex4(q);
        if !ok { return; }
        if codepoint2 < 0xDC00 || codepoint2 > 0xDFFF {
          SetError(BadLowSurrogate, q - 2);
          return false, codepoint, q;
        }
        codepoint := (codepoint - 0xD800) * 0x400 + (codepoint2 - 0xDC00) + 0x10000;
      }
    }

    /** Writes one decoded byte: into the buffer at dst, or on the stack. */
    method Put(dst: nat, x: byte) returns (next: nat)
      requires Sound() && settled <= dst <= |text|
      modifies `stack, src
      ensures Sound()
      ensures insitu ==> stack == old(stack) && next == dst + 1 && src[..] == old(src[..])[dst := x]
      ensures !insitu ==> stack == old(stack) + [x] && next == dst && src[..] == old(src[..])
    {
      if insitu {
        ghost var was := src[..];
        src[dst] := x;
        StillMean(doc.log, was, src[..], settled, settled);
        next := dst + 1;
      } else {
        stack := stack + [x];
        next := dst;
      }
    }

    /** What holds at the head of the string loop: acc is decoded, the cursor is at s. */
    ghost predicate InString(start: nat, s: nat, dst: nat, acc: seq<byte>)
      reads this, src, doc
    {
      && Sound() && settled <= pos == start < s <= |text| && Unread(s)
      && (if insitu then
            start < dst <= s && src[start + 1..dst] == acc && dst == start + 1 + |acc| && stack == []
          else
            dst == start + 1 && stack == acc)
    }

    /** Puts the decoded bytes of one turn; the turn has consumed more of the text than it writes. */
    method PutAll(start: nat, s: nat, dst: nat, bytes: seq<byte>, ghost s0: nat, ghost acc: seq<byte>)
        returns (next: nat)
      requires InString(start, s0, dst, acc) && s0 + |bytes| <= s <= |text|
      modifies `stack, src
      ensures InString(start, s, next, acc + bytes)
    {
      next := dst;
      assert acc + bytes[..0] == acc;
      for i := 0 to |bytes|
        invariant InString(start, s0 + i, next, acc + bytes[..i])
        invariant Unread(s)
      {
        ghost var was := src[..];
        ghost var put := acc + bytes[..i];
        ghost var at := next;
        next := Put(next, bytes[i]);
        assert acc + bytes[..i + 1] == put + [bytes[i]];
        if insitu {
          assert src[start + 1..at] == was[start + 1..at];
          assert src[start + 1..next] == src[start + 1..at] + [src[at]];
        }
      }
      assert bytes[..|bytes|] == bytes;
    }

    /** One turn of the string loop: the bytes to put, the closing quote, or an error. */
    method ParseTurn(s: nat) returns (r: Turn)
      requires |text| < src.Length && pos <= s <= |text| && Unread(s)
      modifies `parseError, `errorOffset
      ensures r == ParseChar(text, pos, s)
      ensures r.Put? ==> s + |r.bytes| <= r.pos <= |text|
      ensures r.Bad? ==> parseError == Some(r.error) && errorOffset == r.offset
    {
      var c := src[s];
      if c == BACKSLASH {
        var e := src[s + 1];
        if Unescape(e) != 0 {
          r := Turn.Put([Unescape(e)], s + 2);
        } else if e == LOWER_U {
          var ok, codepoint, q := ParseUnicode(s + 2);
          if ok {
            var buffer := new byte[4];
            var count := Encode(buffer, codepoint);
            r := Turn.Put(buffer[..count], q);
          } else {
            r := Bad(parseError.value, errorOffset);
          }
        } else {
          SetError(UnknownEscape, pos - 1);
          r := Bad(UnknownEscape, pos - 1);
        }
      } else if c == QUOTE {
        r := Close;
      } else if c == 0 {
        SetError(UnterminatedString, pos - 1);
        r := Bad(UnterminatedString, pos - 1);
      } else if c < 0x20 {
        SetError(ControlInString, pos - 1);
        r := Bad(ControlInString, pos - 1);
      } else {
        r := Turn.Put([c], s + 1);
      }
    }

    method ParseString() returns (ok: bool)
      requires Valid() && Peek(text, pos) == QUOTE
      modifies this, src, doc`stack, doc`log
      ensures Sound() && Agrees(ok, ReaderSpec.ParseString(text, old(pos), old(log)))
      ensures ok ==> Valid() && |doc.stack| > 0 && doc.stack[|doc.stack| - 1].VString?
      ensures ok ==> doc.stack[..|doc.stack| - 1] == old(doc.stack)
    {
      hide Run, Meaning;
      var start, s, head := pos, pos + 1, pos + 1;
      var dst: nat, length: nat := head, 0;
      ghost var acc := [];
      ghost var target := ParseChars(text, start, s, acc);
      while true
        invariant InString(start, s, dst, acc) && length == |acc|
        invariant log == old(log) && doc.log == old(doc.log) && doc.stack == old(doc.stack)
        invariant ParseChars(text, start, s, acc) == target
        decreases |text| - s
      {
        var turn := ParseTurn(s);
        match turn {
          case Put(bytes, q) =>
            dst := PutAll(start, q, dst, bytes, s, acc);
            s, acc, length := q, acc + bytes, length + |bytes|;
          case Close =>
            s := s + 1;
            CloseString(s - 1, head, dst, length, acc);
            ok := true;
            return;
          case Bad(_, _) =>
            ok := false;
            return;
        }
      }
    }

    /** Terminates the decoded string, its quote at q, and hands over its place in the buffer or its bytes. */
    method CloseString(q: nat, head: nat, dst: nat, length: nat, ghost acc: seq<byte>)
      requires InString(pos, q, dst, acc) && head == pos + 1 && length == |acc| && q < |text|
      modifies this, src, doc`stack, doc`log
      ensures Valid() && pos == q + 1 && log == old(log) + [String(Copied(acc))]
      ensures |doc.stack| == |old(doc.stack)| + 1 && doc.stack[..|doc.stack| - 1] == old(doc.stack)
      ensures doc.stack[|doc.stack| - 1].VString?
    {
      var end := Put(dst, 0);
      if insitu {
        HandOver(q + 1, InPlace(head, end - 1 - head), acc);
      } else {
        var len := length + 1;
        assert stack == acc + [0];
        var popped := stack[|stack| - len..];
        stack := stack[..|stack| - len];
        assert popped == acc + [0];
        HandOver(q + 1, Copied(popped[..len - 1]), acc);
      }
    }

    /** The handler call for a decoded string, and the cursor behind its closing quote. */
    method HandOver(s: nat, str: Text, ghost acc: seq<byte>)
      requires Sound() && settled <= s <= |text| && Unread(s) && stack == []
      requires Meaning1(String(str), src[..], s) == Some(String(Copied(acc))) && (!insitu ==> str == Copied(acc))
      modifies `pos, `log, `settled, doc`stack, doc`log
      ensures Valid() && pos == s && log == old(log) + [String(Copied(acc))]
      ensures doc.stack == old(doc.stack) + [VString(str)]
    {
      StillMean(doc.log, src[..], src[..], settled, s);
      MeanNext(doc.log, String(str), src[..], s);
      doc.String(str);
      log := log + [String(Copied(acc))];
      pos, settled := s, s;
    }

    // --- numbers ---

    /** The integer part in 32 bits; try64 when the next digit would not fit. */
    method ParseWhole32(p: nat, minus: bool) returns (i: uint32, s: nat, try64: bool)
      requires |text| < src.Length && p < |text| && Unread(p) && IsDigit(Peek(text, p))
      ensures p < s <= WholeEnd(text, p) <= |text| && i as int == Val(text[p..s])
      ensures i as int <= Max32(minus)
      ensures if try64 then s < WholeEnd(text, p) == DigitsEnd(text, s) && Val(text[p..s + 1]) > Max32(minus)
              else s == WholeEnd(text, p)
    {
      s, try64 := p, false;
      ValSlice(text, p, p);
      if src[s] == ZERO {
        return 0, s + 1, false;
      }
      i := (src[s] - ZERO) as uint32;
      s := s + 1;
      var limit: uint32, last := if minus then 214748364 else 429496729, if minus then 0x38 else 0x35;
      while ZERO <= src[s] <= NINE
        invariant p < s <= |text| && i as int == Val(text[p..s]) && i as int <= Max32(minus)
        invariant DigitsEnd(text, s) == WholeEnd(text, p)
        decreases |text| - s
      {
        ValSlice(text, p, s);
        if i >= limit && (i != limit || src[s] > last) {
          try64 := true;
          break;
        }
        i := i * 10 + (src[s] - ZERO) as uint32;
        s := s + 1;
      }
    }

    /** The integer part in 64 bits, from the digits already read on. */
    method ParseWhole64(p: nat, minus: bool, i: uint32, s0: nat) returns (i64: uint64, s: nat, useDouble: bool)
      requires |text| < src.Length && p < s0 <= |text| && Unread(p) && i as int == Val(text[p..s0])
      requires i as int <= Max32(minus)
      ensures s0 <= s <= DigitsEnd(text, s0) <= |text| && i64 as int == Val(text[p..s])
      ensures i64 as int <= Max64(minus)
      ensures if useDouble then s < DigitsEnd(text, s0) && Val(text[p..s + 1]) > Max64(minus)
              else s == DigitsEnd(text, s0)
      ensures DigitsEnd(text, s) == DigitsEnd(text, s0)
    {
      i64, s, useDouble := i as uint64, s0, false;
      var limit: uint64, last :=
        if minus then 922337203685477580 else 1844674407370955161, if minus then 0x38 else 0x35;
      while ZERO <= src[s] <= NINE
        invariant s0 <= s <= |text| && i64 as int == Val(text[p..s]) && i64 as int <= Max64(minus)
        invariant DigitsEnd(text, s) == DigitsEnd(text, s0)
        decreases |text| - s
      {
        ValSlice(text, p, s);
        if i64 >= limit && (i64 != limit || src[s] > last) {
          useDouble := true;
          break;
        }
        i64 := i64 * 10 + (src[s] - ZERO) as uint64;
        s := s + 1;
      }
    }

    /** Digits that only a double can take; it gives up when the double has become too big. */
    method ParseBig(p: nat, minus: bool, s0: nat) returns (ok: bool, s: nat)
      requires |text| < src.Length && p < s0 < |text| && Unread(p) && AllDigits(text[p..s0])
      requires IsDigit(text[s0]) && Val(text[p..s0]) <= Max64(minus) < Val(text[p..s0 + 1])
      ensures s0 <= s <= DigitsEnd(text, s0) <= |text|
      ensures ok <==> !TooHuge(huge, minus, text[p..DigitsEnd(text, s0)])
      ensures ok ==> s == DigitsEnd(text, s0)
    {
      hide Val;
      s := s0;
      ghost var digits := text[p..DigitsEnd(text, s0)];
      JoinDigits(text, p, s0);
      NotOverlong(huge, text, p, s0, minus);
      while ZERO <= src[s] <= NINE
        invariant s0 <= s <= |text| && DigitsEnd(text, s) == DigitsEnd(text, s0)
        invariant forall j: nat | j < s - p :: !Overlong(huge, minus, digits, j)
        decreases |text| - s
      {
        assert src[p..s] == text[p..s] == digits[..s - p];
        OverlongFrom(text, p, s0, s, minus);
        if huge(minus, src[p..s]) {
          assert Overlong(huge, minus, digits, s - p);
          return false, s;
        }
        s := s + 1;
      }
      ok := true;
    }

    /** A decimal point and its digits, if there. */
    method ParseFraction(s0: nat) returns (ok: bool, s: nat)
      requires |text| < src.Length && s0 <= |text| && Unread(s0)
      modifies `parseError, `errorOffset
      ensures Peek(text, s0) != DOT ==> ok && s == s0
      ensures Peek(text, s0) == DOT ==>
        if IsDigit(Peek(text, s0 + 1)) then ok && s == DigitsEnd(text, s0 + 1) <= |text|
        else !ok && parseError == Some(NoFractionDigit) && errorOffset == pos
    {
      ok, s := true, s0;
      if src[s] == DOT {
        s := s + 1;
        if !(ZERO <= src[s] <= NINE) {
          SetError(NoFractionDigit, pos);
          return false, s;
        }
        while ZERO <= src[s] <= NINE
          invariant s0 < s <= |text| && DigitsEnd(text, s) == DigitsEnd(text, s0 + 1)
          decreases |text| - s
        {
          s := s + 1;
        }
      }
    }

    /** An exponent, if there; more than 308 in magnitude is an error whatever its sign. */
    method ParseExponent(s0: nat) returns (ok: bool, s: nat)
      requires |text| < src.Length && pos < s0 <= |text| && Unread(s0)
      modifies `parseError, `errorOffset
      ensures ok ==> s0 <= s <= |text|
      ensures var r := ReaderSpec.ParseExponent(text, pos, s0, [], None);
        if r.Done? then ok && s == r.pos else !ok && parseError == Some(r.error) && errorOffset == r.offset
      ensures ok && Peek(text, s0) != LOWER_E && Peek(text, s0) != UPPER_E ==> s == s0
    {
      ok, s := true, s0;
      if src[s] == LOWER_E || src[s] == UPPER_E {
        s := s + 1;
        if src[s] == PLUS || src[s] == MINUS {
          s := s + 1;
        }
        if !(ZERO <= src[s] <= NINE) {
          SetError(NoExponentDigit, s);
          return false, s;
        }
        ok, s := ParseExponentDigits(s);
      }
    }

    method ParseExponentDigits(p: nat) returns (ok: bool, s: nat)
      requires |text| < src.Length && p < |text| && Unread(p) && IsDigit(Peek(text, p))
      modifies `parseError, `errorOffset
      ensures p < s <= |text|
      ensures if Val(text[p..DigitsEnd(text, p)]) <= 308 then ok && s == DigitsEnd(text, p)
              else !ok && parseError == Some(NumberTooBig) && errorOffset == pos
    {
      ValSlice(text, p, p);
      var exp: int := src[p] - ZERO;
      s := p + 1;
      while ZERO <= src[s] <= NINE
        invariant p < s <= |text| && DigitsEnd(text, s) == DigitsEnd(text, p)
        invariant exp == Val(text[p..s]) <= 308
        decreases |text| - s
      {
        ValSlice(text, p, s);
        exp := exp * 10 + (src[s] - ZERO);
        s := s + 1;
        if exp > 308 {
          ValSlices(text, p, s, DigitsEnd(text, p));
          SetError(NumberTooBig, pos);
          return false, s;
        }
      }
      ok := true;
    }

    /** The integer part: in 32 bits, else in 64, else for a double only. */
    method ParseWhole(p: nat, minus: bool)
        returns (ok: bool, s: nat, i: uint32, try64: bool, i64: uint64, useDouble: bool)
      requires |text| < src.Length && p < |text| && Unread(p) && IsDigit(Peek(text, p))
      ensures var digits := text[p..WholeEnd(text, p)];
        && (ok <==> !TooHuge(huge, minus, digits))
        && (useDouble <==> Val(digits) > Max64(minus))
        && (!useDouble ==>
             (try64 <==> Val(digits) > Max32(minus)) && (if try64 then i64 as int else i as int) == Val(digits))
      ensures ok ==> s == WholeEnd(text, p)
    {
      i, s, try64 := ParseWhole32(p, minus);
      ok, i64, useDouble := true, 0, false;
      ghost var end := WholeEnd(text, p);
      if try64 {
        ValSlices(text, p, s + 1, end);
        i64, s, useDouble := ParseWhole64(p, minus, i, s);
        if useDouble {
          ValSlices(text, p, s + 1, end);
          DigitsSlice(text, p, s, end);
          ok, s := ParseBig(p, minus, s);
          return;
        }
      }
      NotTooHuge(huge, text, p, end, minus);
    }

    method Hand32(minus: bool, i: uint32) returns (ghost e: Event)
      requires Valid()
      modifies `log, doc`stack, doc`log
      ensures Valid() && |doc.stack| == |old(doc.stack)| + 1 && doc.stack[..|doc.stack| - 1] == old(doc.stack)
      ensures log == old(log) + [e] && e == if minus then Int(-(i as int)) else Uint(i as int)
    {
      var z: int := if minus then -(i as int) else i as int;
      e := if minus then Int(z) else Uint(z);
      MeanNext(doc.log, e, src[..], settled);
      if minus {
        doc.Int(z);
      } else {
        doc.Uint(z);
      }
      log := log + [e];
    }

    method Hand64(minus: bool, i64: uint64) returns (ghost e: Event)
      requires Valid()
      modifies `log, doc`stack, doc`log
      ensures Valid() && |doc.stack| == |old(doc.stack)| + 1 && doc.stack[..|doc.stack| - 1] == old(doc.stack)
      ensures log == old(log) + [e] && e == if minus then Int64(-(i64 as int)) else Uint64(i64 as int)
    {
      var z: int := if minus then -(i64 as int) else i64 as int;
      e := if minus then Int64(z) else Uint64(z);
      MeanNext(doc.log, e, src[..], settled);
      if minus {
        doc.Int64(z);
      } else {
        doc.Uint64(z);
      }
      log := log + [e];
    }

    method HandDouble(literal: seq<byte>)
      requires Valid()
      modifies `log, doc`stack, doc`log
      ensures Valid() && |doc.stack| == |old(doc.stack)| + 1 && doc.stack[..|doc.stack| - 1] == old(doc.stack)
      ensures log == old(log) + [Double(literal)]
    {
      doc.Double(literal);
      MeanNext(old(doc.log), Double(literal), src[..], settled);
      log := log + [Event.Double(literal)];
    }

    method ParseNumber() returns (ok: bool)
      requires Valid()
      modifies this, doc`stack, doc`log
      ensures Sound() && Agrees(ok, ReaderSpec.ParseNumber(huge, text, old(pos), old(log)))
      ensures ok ==> Valid() && |doc.stack| == |old(doc.stack)| + 1 && doc.stack[..|doc.stack| - 1] == old(doc.stack)
    {
      var whole := pos;
      var minus := src[whole] == MINUS;
      if minus {
        whole := whole + 1;
      }
      if !(ZERO <= src[whole] <= NINE) {
        SetError(ExpectValue, pos);
        return false;
      }
      var s, i, try64, i64, useDouble;
      ok, s, i, try64, i64, useDouble := ParseWhole(whole, minus);
      if !ok {
        SetError(NumberTooBig, pos);
        return;
      }
      ok := ParseRest(minus, whole, s, i, try64, i64, useDouble);
    }

    /** The fraction and the exponent of a number, then its event. */
    method ParseRest(minus: bool, ghost whole: nat, s0: nat, i: uint32, try64: bool, i64: uint64, useDouble: bool)
        returns (ok: bool)
      requires Valid() && pos <= whole < s0 <= |text|
      requires var v := Val(text[whole..s0]);
        && (useDouble <==> v > Max64(minus))
        && (!useDouble ==> (try64 <==> v > Max32(minus)) && (if try64 then i64 as int else i as int) == v)
      modifies this, doc`stack, doc`log
      ensures Sound()
      ensures Agrees(ok, ReaderSpec.ParseFraction(text, old(pos), s0, old(log),
                           IntegerEvent(minus, text[whole..s0], text[old(pos)..s0])))
      ensures ok ==> Valid() && |doc.stack| == |old(doc.stack)| + 1 && doc.stack[..|doc.stack| - 1] == old(doc.stack)
    {
      hide Run, Meaning, Val;
      var s;
      ok, s := ParseFraction(s0);
      if !ok { return; }
      ghost var s1 := s;
      ghost var plain := IntegerEvent(minus, text[whole..s0], text[pos..s0]);
      ok, s := ParseExponent(s);
      ExponentEvents(text, pos, s1, log, if s1 == s0 then Some(plain) else None);
      if !ok { return; }
      ghost var e := HandNumber(minus, try64, i, i64, useDouble || s != s0, s);
      assert e == if s == s0 then plain else Double(text[old(pos)..s]);
    }

    method HandNumber(minus: bool, try64: bool, i: uint32, i64: uint64, useDouble: bool, s: nat)
        returns (ghost e: Event)
      requires Valid() && pos <= s <= |text|
      modifies `pos, `log, doc`stack, doc`log
      ensures Valid() && |doc.stack| == |old(doc.stack)| + 1 && doc.stack[..|doc.stack| - 1] == old(doc.stack)
      ensures pos == s && log == old(log) + [e]
      ensures e == if useDouble then Double(text[old(pos)..s])
                   else if try64 then (if minus then Int64(-(i64 as int)) else Uint64(i64 as int))
                   else if minus then Int(-(i as int)) else Uint(i as int)
    {
      if useDouble {
        assert src[pos..s] == text[pos..s];
        HandDouble(src[pos..s]);
        e := Double(text[pos..s]);
      } else if try64 {
        e := Hand64(minus, i64);
      } else {
        e := Hand32(minus, i);
      }
      pos := s;
    }

    // --- null, true, false ---

    /** The byte at the cursor is the k-th of the tail of a word, as the k before it were. */
    method TakeLetter(c: byte, ghost start: nat, ghost tail: seq<byte>, ghost k: nat) returns (same: bool)
      requires Valid() && k < |tail| && tail[k] == c != 0 && pos == start + 1 + k
      requires Matched(text, start + 1, tail) == k + Matched(text, pos, tail[k..])
      modifies `pos
      ensures pos == old(pos) + 1
      ensures same ==> Valid() && Matched(text, start + 1, tail) == k + 1 + Matched(text, pos, tail[k + 1..])
      ensures !same ==> Sound() && Matched(text, start + 1, tail) == k
    {
      var x := Take();
      same := x == c;
      assert tail[k..][1..] == tail[k + 1..];
    }

    /** Three letters from k on, as the && chain of the source takes them. */
    method TakeThree(c0: byte, c1: byte, c2: byte, ghost start: nat, ghost tail: seq<byte>, ghost k: nat)
        returns (same: bool)
      requires Valid() && k + 3 == |tail| && tail[k..] == [c0, c1, c2] && 0 !in tail && pos == start + 1 + k
      requires Matched(text, start + 1, tail) == k + Matched(text, pos, tail[k..])
      modifies `pos
      ensures Sound() && (same ==> Valid())
      ensures same <==> Matched(text, start + 1, tail) == |tail|
      ensures pos == start + 1 + if same then |tail| else Matched(text, start + 1, tail) + 1
    {
      assert tail[k] == tail[k..][0] && tail[k + 1] == tail[k..][1] && tail[k + 2] == tail[k..][2];
      same := TakeLetter(c0, start, tail, k);
      if same { same := TakeLetter(c1, start, tail, k + 1); }
      if same { same := TakeLetter(c2, start, tail, k + 2); }
    }

    method HandNull()
      requires Valid()
      modifies `log, doc`stack, doc`log
      ensures Valid() && log == old(log) + [Event.Null] && doc.stack == old(doc.stack) + [VNull]
    {
      MeanNext(doc.log, Event.Null, src[..], settled);
      doc.Null();
      log := log + [Event.Null];
    }

    method HandBool(b: bool)
      requires Valid()
      modifies `log, doc`stack, doc`log
      ensures Valid() && log == old(log) + [Bool(b)] && doc.stack == old(doc.stack) + [VBool(b)]
    {
      MeanNext(doc.log, Bool(b), src[..], settled);
      doc.Bool(b);
      log := log + [Bool(b)];
    }

    method ParseNull() returns (ok: bool)
      requires Valid() && Peek(text, pos) == 0x6E
      modifies this, doc`stack, doc`log
      ensures Sound()
      ensures Agrees(ok, ReaderSpec.ParseWord(text, old(pos), old(log), NULL_TAIL, Event.Null, 0))
      ensures ok ==> Valid() && |doc.stack| == |old(doc.stack)| + 1 && doc.stack[..|doc.stack| - 1] == old(doc.stack)
    {
      var c := Take();
      assert NULL_TAIL[0..] == NULL_TAIL;
      ok := TakeThree(0x75, 0x6C, 0x6C, old(pos), NULL_TAIL, 0);
      if ok {
        HandNull();
      } else {
        SetError(InvalidValue, pos - 1);
      }
    }

    method ParseTrue() returns (ok: bool)
      requires Valid() && Peek(text, pos) == 0x74
      modifies this, doc`stack, doc`log
      ensures Sound()
      ensures Agrees(ok, ReaderSpec.ParseWord(text, old(pos), old(log), TRUE_TAIL, Bool(true), 1))
      ensures ok ==> Valid() && |doc.stack| == |old(doc.stack)| + 1 && doc.stack[..|doc.stack| - 1] == old(doc.stack)
    {
      var c := Take();
      assert TRUE_TAIL[0..] == TRUE_TAIL;
      ok := TakeThree(0x72, 0x75, 0x65, old(pos), TRUE_TAIL, 0);
      if ok {
        HandBool(true);
      } else {
        SetError(InvalidValue, pos);
      }
    }

    method ParseFalse() returns (ok: bool)
      requires Valid() && Peek(text, pos) == 0x66
      modifies this, doc`stack, doc`log
      ensures Sound()
      ensures Agrees(ok, ReaderSpec.ParseWord(text, old(pos), old(log), FALSE_TAIL, Bool(false), 0))
      ensures ok ==> Valid() && |doc.stack| == |old(doc.stack)| + 1 && doc.stack[..|doc.stack| - 1] == old(doc.stack)
    {
      hide Run, Meaning, Matched;
      var c := Take();
      assert FALSE_TAIL[0..] == FALSE_TAIL && FALSE_TAIL[1..] == [0x6C, 0x73, 0x65];
      ok := TakeLetter(0x61, old(pos), FALSE_TAIL, 0);
      if ok { ok := TakeThree(0x6C, 0x73, 0x65, old(pos), FALSE_TAIL, 1); }
      if ok {
        HandBool(false);
      } else {
        SetError(InvalidValue, pos - 1);
      }
    }

    // --- values ---

    method ParseValue() returns (ok: bool)
      requires Valid()
      modifies this, src, doc`stack, doc`log
      ensures Sound() && (ok ==> Valid())
      ensures Agrees(ok, ReaderSpec.ParseValue(huge, text, old(pos), old(log)))
      ensures ok ==> |doc.stack| == |old(doc.stack)| + 1 && doc.stack[..|doc.stack| - 1] == old(doc.stack)
      decreases |text| - pos, 1
    {
      var c := src[pos];
      if c == 0x6E {
        ok := ParseNull();
      } else if c == 0x74 {
        ok := ParseTrue();
      } else if c == 0x66 {
        ok := ParseFalse();
      } else if c == QUOTE {
        ok := ParseString();
      } else if c == LBRACE {
        ok := ParseObject();
      } else if c == LBRACKET {
        ok := ParseArray();
      } else {
        ok := ParseNumber();
      }
    }

    method StartObject()
      requires Valid()
      modifies `log, doc`stack, doc`log
      ensures Valid() && log == old(log) + [Event.StartObject] && doc.stack == old(doc.stack) + [VObject([])]
    {
      MeanNext(doc.log, Event.StartObject, src[..], settled);
      doc.StartObject();
      log := log + [Event.StartObject];
    }

    method EndObject(n: nat)
      requires Valid() && |doc.stack| > 2 * n && Paired(doc.stack[|doc.stack| - 2 * n..])
      modifies `log, doc`stack, doc`log
      ensures Valid() && log == old(log) + [Event.EndObject(n)]
      ensures |doc.stack| == |old(doc.stack)| - 2 * n
      ensures doc.stack[..|doc.stack| - 1] == old(doc.stack)[..|doc.stack| - 1]
    {
      MeanNext(doc.log, Event.EndObject(n), src[..], settled);
      doc.EndObject(n);
      log := log + [Event.EndObject(n)];
    }

    method StartArray()
      requires Valid()
      modifies `log, doc`stack, doc`log
      ensures Valid() && log == old(log) + [Event.StartArray] && doc.stack == old(doc.stack) + [VArray([])]
    {
      MeanNext(doc.log, Event.StartArray, src[..], settled);
      doc.StartArray();
      log := log + [Event.StartArray];
    }

    method EndArray(n: nat)
      requires Valid() && |doc.stack| > n
      modifies `log, doc`stack, doc`log
      ensures Valid() && log == old(log) + [Event.EndArray(n)]
      ensures |doc.stack| == |old(doc.stack)| - n && doc.stack[..|doc.stack| - 1] == old(doc.stack)[..|doc.stack| - 1]
    {
      MeanNext(doc.log, Event.EndArray(n), src[..], settled);
      doc.EndArray(n);
      log := log + [Event.EndArray(n)];
    }

    method ParseObject() returns (ok: bool)
      requires Valid() && Peek(text, pos) == LBRACE
      modifies this, src, doc`stack, doc`log
      ensures Sound() && (ok ==> Valid())
      ensures Agrees(ok, ReaderSpec.ParseObject(huge, text, old(pos), old(log)))
      ensures ok ==> |doc.stack| == |old(doc.stack)| + 1 && doc.stack[..|doc.stack| - 1] == old(doc.stack)
      decreases |text| - pos, 0
    {
      hide Run, Meaning;
      var c := Take();
      StartObject();
      SkipWhitespace();
      if src[pos] == RBRACE {
        c := Take();
        EndObject(0);
        ok := true;
      } else {
        ok := ParseMembers();
      }
    }

    /** A comma and the whitespace after it, or the closing bracket. */
    method TakeSeparator(close: byte, e: Error) returns (ok: bool, more: bool)
      requires Valid() && close != 0
      modifies `pos, `parseError, `errorOffset
      ensures Sound() && (ok ==> Valid())
      ensures match ReaderSpec.TakeSeparator(text, old(pos), close)
        case More(q) => ok && more && pos == q
        case End(q) => ok && !more && pos == q
        case NoSeparator(off) => !ok && parseError == Some(e) && errorOffset == off
    {
      var c := Take();
      ok, more := true, c == COMMA;
      if c == COMMA {
        SkipWhitespace();
      } else if c != close {
        ok := false;
        SetError(e, pos);
      }
    }

    /** The member loop; the object under construction is on top of the stack. */
    method ParseMembers() returns (ok: bool)
      requires Valid() && |doc.stack| > 0
      modifies this, src, doc`stack, doc`log
      ensures Sound() && (ok ==> Valid())
      ensures Agrees(ok, ReaderSpec.ParseMembers(huge, text, old(pos), old(log), 0))
      ensures ok ==> |doc.stack| == |old(doc.stack)|
      ensures ok ==> doc.stack[..|doc.stack| - 1] == old(doc.stack)[..|doc.stack| - 1]
      decreases |text| - pos, 3
    {
      hide Run, Meaning, SkipWs, ReaderSpec.ParseMember;
      ghost var target := ReaderSpec.ParseMembers(huge, text, pos, log, 0);
      var memberCount, more := 0, true;
      while more
        invariant Valid() && old(pos) <= pos
        invariant |doc.stack| == |old(doc.stack)| + 2 * memberCount && doc.stack[..|old(doc.stack)|] == old(doc.stack)
        invariant Paired(doc.stack[|old(doc.stack)|..])
        invariant if more then ReaderSpec.ParseMembers(huge, text, pos, log, memberCount) == target
                  else target == Done(log + [Event.EndObject(memberCount)], pos)
        decreases more, |text| - pos
      {
        ok := ParseMember(|old(doc.stack)|);
        if !ok { return; }
        memberCount := memberCount + 1;
        ok, more := TakeSeparator(RBRACE, MemberSeparator);
        if !ok { return; }
      }
      EndObject(memberCount);
      ok := true;
    }

    /** A name, a colon and a value, and the whitespace after them. */
    method ParseMember(ghost base: nat) returns (ok: bool)
      requires Valid() && base <= |doc.stack| && Paired(doc.stack[base..])
      modifies this, src, doc`stack, doc`log
      ensures Sound() && (ok ==> Valid())
      ensures Agrees(ok, ReaderSpec.ParseMember(huge, text, old(pos), old(log)))
      ensures ok ==> |doc.stack| == |old(doc.stack)| + 2 && doc.stack[..base] == old(doc.stack)[..base]
      ensures ok ==> Paired(doc.stack[base..])
      decreases |text| - pos, 2
    {
      hide Run, Meaning, Paired;
      if src[pos] != QUOTE {
        SetError(NameNotString, pos);
        return false;
      }
      ok := ParseString();
      if !ok { return; }
      ghost var named := doc.stack;
      SkipWhitespace();
      ok := ParseMemberValue();
      if ok { StackOfMembers(old(doc.stack), named, doc.stack, base); }
    }

    method ParseMemberValue() returns (ok: bool)
      requires Valid()
      modifies this, src, doc`stack, doc`log
      ensures Sound() && (ok ==> Valid())
      ensures Agrees(ok, ReaderSpec.ParseMemberValue(huge, text, old(pos), old(log)))
      ensures ok ==> |doc.stack| == |old(doc.stack)| + 1 && doc.stack[..|doc.stack| - 1] == old(doc.stack)
      decreases |text| - pos, 2
    {
      var c := Take();
      if c != COLON {
        SetError(MissingColon, pos);
        return false;
      }
      SkipWhitespace();
      ok := ParseValue();
      if !ok { return; }
      SkipWhitespace();
    }

    method ParseArray() returns (ok: bool)
      requires Valid() && Peek(text, pos) == LBRACKET
      modifies this, src, doc`stack, doc`log
      ensures Sound() && (ok ==> Valid())
      ensures Agrees(ok, ReaderSpec.ParseArray(huge, text, old(pos), old(log)))
      ensures ok ==> |doc.stack| == |old(doc.stack)| + 1 && doc.stack[..|doc.stack| - 1] == old(doc.stack)
      decreases |text| - pos, 0
    {
      hide Run, Meaning;
      var c := Take();
      StartArray();
      SkipWhitespace();
      if src[pos] == RBRACKET {
        c := Take();
        EndArray(0);
        ok := true;
      } else {
        ok := ParseElements();
      }
    }

    /** The element loop; the array under construction is on top of the stack. */
    method ParseElements() returns (ok: bool)
      requires Valid() && |doc.stack| > 0
      modifies this, src, doc`stack, doc`log
      ensures Sound() && (ok ==> Valid())
      ensures Agrees(ok, ReaderSpec.ParseElements(huge, text, old(pos), old(log), 0))
      ensures ok ==> |doc.stack| == |old(doc.stack)|
      ensures ok ==> doc.stack[..|doc.stack| - 1] == old(doc.stack)[..|doc.stack| - 1]
      decreases |text| - pos, 3
    {
      hide Run, Meaning;
      ghost var target := ReaderSpec.ParseElements(huge, text, pos, log, 0);
      var elementCount, more := 0, true;
      while more
        invariant Valid() && old(pos) <= pos
        invariant |doc.stack| == |old(doc.stack)| + elementCount && doc.stack[..|old(doc.stack)|] == old(doc.stack)
        invariant if more then ReaderSpec.ParseElements(huge, text, pos, log, elementCount) == target
                  else target == Done(log + [Event.EndArray(elementCount)], pos)
        decreases more, |text| - pos
      {
        ok := ParseElement(|old(doc.stack)|);
        if !ok { return; }
        elementCount := elementCount + 1;
        ok, more := TakeSeparator(RBRACKET, ElementSeparator);
        if !ok { return; }
      }
      EndArray(elementCount);
      ok := true;
    }

    /** A value and the whitespace after it. */
    method ParseElement(ghost base: nat) returns (ok: bool)
      requires Valid() && base <= |doc.stack|
      modifies this, src, doc`stack, doc`log
      ensures Sound() && (ok ==> Valid())
      ensures var r := ReaderSpec.ParseValue(huge, text, old(pos), old(log));
        Agrees(ok, if r.Done? then Done(r.events, SkipWs(text, r.pos)) else r)
      ensures ok ==> |doc.stack| == |old(doc.stack)| + 1 && doc.stack[..base] == old(doc.stack)[..base]
      decreases |text| - pos, 2
    {
      ok := ParseValue();
      if ok {
        assert doc.stack[..base] == doc.stack[..|doc.stack| - 1][..base];
        SkipWhitespace();
      }
    }

    /** Parses the whole text; an error at any depth ends the parse, as longjmp does. */
    method Parse() returns (ok: bool)
      requires Valid() && pos == 0 && log == [] && doc.stack == []
      modifies this, src, doc`stack, doc`log
      ensures Sound() && Agrees(ok, ReaderSpec.Parse(huge, text)) && stack == []
      ensures ok ==> Valid() && |doc.stack| == 1
    {
      parseError, errorOffset := None, 0;
      ok := ParseRoot();
      if !ok { stack := []; }
    }

    method ParseRoot() returns (ok: bool)
      requires Valid() && pos == 0 && log == [] && doc.stack == []
      modifies this, src, doc`stack, doc`log
      ensures Sound() && Agrees(ok, ReaderSpec.Parse(huge, text))
      ensures ok ==> Valid() && |doc.stack| == 1
    {
      hide Run, Meaning, SkipWs;
      SkipWhitespace();
      var c := src[pos];
      if c == 0 {
        SetError(OnlyWhitespace, pos);
        return false;
      }
      if c == LBRACE {
        ok := ParseObject();
      } else if c == LBRACKET {
        ok := ParseArray();
      } else {
        SetError(ExpectRoot, pos);
        return false;
      }
      if !ok { return; }
      SkipWhitespace();
      if src[pos] != 0 {
        SetError(TrailingText, pos);
        return false;
      }
    }
  }

  /** A name and a value on top of paired members leave the members paired. */
  lemma StackOfMembers(before: seq<Value>, named: seq<Value>, after: seq<Value>, b: nat)
    requires b <= |before| && Paired(before[b..])
    requires |named| == |before| + 1 && named[..|before|] == before && named[|before|].VString?
    requires |after| == |named| + 1 && after[..|named|] == named
    ensures Paired(after[b..]) && after[..b] == before[..b]
  {
    PairedNext(before[b..], named[|before|], after[|named|]);
    assert after == before + [named[|before|], after[|named|]];
    assert after[b..] == before[b..] + [named[|before|], after[|named|]];
  }

  /** The exponent is read the same way whatever events came before. */
  lemma ExponentEvents(t: seq<byte>, start: nat, p: nat, ev: seq<Event>, plain: Option<Event>)
    requires start < p <= |t|
    ensures var r := ReaderSpec.ParseExponent(t, start, p, [], None);
      ReaderSpec.ParseExponent(t, start, p, ev, plain) ==
        if r.Fail? then r.(events := ev)
        else if plain.Some? && r.pos == p then Done(ev + [plain.value], p)
        else Done(ev + [Double(t[start..r.pos])], r.pos)
  {}

  lemma NotTooHuge(huge: Rounding, t: seq<byte>, p: nat, s: nat, minus: bool)
    requires p <= s <= |t| && AllDigits(t[p..s]) && Val(t[p..s]) <= Max64(minus)
    ensures !TooHuge(huge, minus, t[p..s])
  {
    forall j: nat | 0 < j < s - p ensures !Overlong(huge, minus, t[p..s], j) {
      assert t[p..s][..s - p] == t[p..s];
      ValMonotone(t[p..s], j + 1, s - p);
    }
  }

  /** Digits before s and the digits from s on make one run. */
  lemma JoinDigits(t: seq<byte>, p: nat, s: nat)
    requires p <= s <= |t| && AllDigits(t[p..s])
    ensures s <= DigitsEnd(t, s) <= |t| && AllDigits(t[p..DigitsEnd(t, s)])
  {
    assert t[p..DigitsEnd(t, s)] == t[p..s] + t[s..DigitsEnd(t, s)];
  }

  /** Digits whose value fits 64 bits are not overlong. */
  lemma NotOverlong(huge: Rounding, t: seq<byte>, p: nat, s: nat, minus: bool)
    requires p <= s <= |t| && AllDigits(t[p..s]) && Val(t[p..s]) <= Max64(minus)
    ensures forall j: nat | j < s - p :: !Overlong(huge, minus, t[p..DigitsEnd(t, s)], j)
  {
    JoinDigits(t, p, s);
    forall j: nat | j < s - p ensures !Overlong(huge, minus, t[p..DigitsEnd(t, s)], j) {
      assert t[p..DigitsEnd(t, s)][..j + 1] == t[p..s][..j + 1] && t[p..s][..s - p] == t[p..s];
      ValMonotone(t[p..s], j + 1, s - p);
    }
  }

  /** From the 64-bit overflow on, only the double decides. */
  lemma OverlongFrom(t: seq<byte>, p: nat, s0: nat, s: nat, minus: bool)
    requires p < s0 <= s < |t| && DigitsEnd(t, s) == DigitsEnd(t, s0) && s < DigitsEnd(t, s) && AllDigits(t[p..s0])
    requires Val(t[p..s0 + 1]) > Max64(minus)
    ensures Val(t[p..DigitsEnd(t, s0)][..s - p + 1]) > Max64(minus)
  {
    JoinDigits(t, p, s0);
    var digits := t[p..DigitsEnd(t, s0)];
    assert digits[..s - p + 1] == t[p..s + 1] && digits[..s0 - p + 1] == t[p..s0 + 1];
    ValMonotone(digits, s0 - p + 1, s - p + 1);
  }

  /** Document::ParseStream: parses the buffer into the document and takes the one root off its stack.
      In both modes the outcome is that of the specification, and the root, with strings in the
      buffer replaced by their bytes, is the value built from its events. */
  method ParseStream(doc: Document, insitu: bool, huge: Rounding, src: array<byte>, ghost text: seq<byte>)
    requires doc.Valid() && doc.stack == [] && doc.log == []
    requires |text| < src.Length && 0 !in text && src[..|text|] == text && src[|text|] == 0
    modifies doc, src
    ensures doc.Valid() && doc.stack == [] && doc.log == []
    ensures !insitu ==> src[..|text| + 1] == old(src[..|text| + 1]) && Resolve(doc.root, src[..]) == doc.root
    ensures match Parse(huge, text)
      case Done(gs, _) =>
        doc.parseError == None && doc.errorOffset == 0 && Run(gs) == Some([Resolve(doc.root, src[..])])
      case Fail(_, e, off) => doc.root == VNull && doc.parseError == Some(e) && doc.errorOffset == off
  {
    doc.root := VNull;
    var reader := new Reader(insitu, huge, src, doc, text);
    var ok := reader.Parse();
    if ok {
      RunMeans(doc.log, src[..], reader.settled);
      assert doc.stack == [doc.stack[0]];
      assert ResolveAll(doc.stack, src[..]) == [Resolve(doc.stack[0], src[..])];
    }
    doc.Finish(ok, reader.parseError, reader.errorOffset);
    assert !insitu ==> src[..|text| + 1] == old(src[..|text| + 1]);
  }
}
