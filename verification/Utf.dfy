/** Hexadecimal digits and the UTF-8 and UTF-16 encodings of rapidjson/rapidjson.h. */
module Utf {
  import opened Bytes

  predicate IsHexDigit(c: byte) { IsDigit(c) || 0x41 <= c <= 0x46 || 0x61 <= c <= 0x66 }

  function HexValue(c: byte): (v: nat)
    requires IsHexDigit(c)
    ensures v < 16
  {
    if IsDigit(c) then c - ZERO else if c <= 0x46 then c - 0x41 + 10 else c - 0x61 + 10
  }

  /** The sixteen digits in either case, in the order of their values. */
  lemma DigitTables(c: byte)
    ensures var (upper, lower) := (
        [0x30, 0x31, 0x32, 0x33, 0x34, 0x35, 0x36, 0x37, 0x38, 0x39, 0x41, 0x42, 0x43, 0x44, 0x45, 0x46],
        [0x30, 0x31, 0x32, 0x33, 0x34, 0x35, 0x36, 0x37, 0x38, 0x39, 0x61, 0x62, 0x63, 0x64, 0x65, 0x66]);
      (IsHexDigit(c) <==> c in upper || c in lower)
      && (IsHexDigit(c) ==> upper[HexValue(c)] == c || lower[HexValue(c)] == c)
  {}

  /** The source shifts, masks and ors bit fields: in range, that is adding quotients and remainders. */
  lemma FieldsAddUp(cp: bv32, hi: bv32, lo: bv32)
    ensures cp <= 0x7F ==> cp & 0xFF == cp
    ensures cp <= 0x7FF ==> 0xC0 | ((cp >> 6) & 0xFF) == 0xC0 + cp / 0x40
    ensures cp <= 0xFFFF ==> 0xE0 | ((cp >> 12) & 0xFF) == 0xE0 + cp / 0x1000
    ensures cp <= 0x10FFFF ==> 0xF0 | ((cp >> 18) & 0xFF) == 0xF0 + cp / 0x40000
    ensures 0x80 | (cp & 0x3F) == 0x80 + cp % 0x40
    ensures 0x80 | ((cp >> 6) & 0x3F) == 0x80 + cp / 0x40 % 0x40
    ensures 0x80 | ((cp >> 12) & 0x3F) == 0x80 + cp / 0x1000 % 0x40
    ensures 0xD800 <= hi <= 0xDBFF && 0xDC00 <= lo <= 0xDFFF ==>
      ((hi - 0xD800) << 10) | (lo - 0xDC00) == (hi - 0xD800) * 0x400 + (lo - 0xDC00)
  {}

  /** UTF8::Encode, with its bit fields added up. */
  function Utf8(cp: nat): (s: seq<byte>)
    requires cp <= 0x10FFFF
    ensures 1 <= |s| <= 4
    ensures |s| == 1 <==> cp <= 0x7F
    ensures |s| <= 3 <==> cp <= 0xFFFF
  {
    if cp <= 0x7F then [cp]
    else if cp <= 0x7FF then [0xC0 + cp / 0x40, 0x80 + cp % 0x40]
    else if cp <= 0xFFFF then [0xE0 + cp / 0x1000, 0x80 + cp / 0x40 % 0x40, 0x80 + cp % 0x40]
    else [0xF0 + cp / 0x40000, 0x80 + cp / 0x1000 % 0x40, 0x80 + cp / 0x40 % 0x40, 0x80 + cp % 0x40]
  }

  /** UTF8::Encode, into a buffer. */
  method Encode(buffer: array<byte>, codepoint: nat) returns (count: nat)
    requires buffer.Length >= 4 && codepoint <= 0x10FFFF
    modifies buffer
    ensures count <= 4 && buffer[..count] == Utf8(codepoint)
  {
    if codepoint <= 0x7F {
      buffer[0] := codepoint;
      count := 1;
    } else if codepoint <= 0x7FF {
      buffer[0] := 0xC0 + codepoint / 0x40;
      buffer[1] := 0x80 + codepoint % 0x40;
      count := 2;
    } else if codepoint <= 0xFFFF {
      buffer[0] := 0xE0 + codepoint / 0x1000;
      buffer[1] := 0x80 + codepoint / 0x40 % 0x40;
      buffer[2] := 0x80 + codepoint % 0x40;
      count := 3;
    } else {
      buffer[0] := 0xF0 + codepoint / 0x40000;
      buffer[1] := 0x80 + codepoint / 0x1000 % 0x40;
      buffer[2] := 0x80 + codepoint / 0x40 % 0x40;
      buffer[3] := 0x80 + codepoint % 0x40;
      count := 4;
    }
  }
}
