/** When a string written between quotes as it is, without escapes, is read back. */
module FieldTexts {
  import opened Bytes
  import opened Json
  import opened ReaderSpec
  import opened Grammar
  import opened Places
  import opened Soundness
  import opened Printing
  import opened RoundTrip
  import opened RegistryTexts

  lemma AtPeek(t: seq<byte>, p: nat, s: seq<byte>, k: nat)
    requires At(t, p, s) && k < |s|
    ensures p + k < |t| && Peek(t, p + k) == s[k]
  {
    AtBound(t, p, s);
    AtSlice(t, p, s);
    assert t[p..p + |s|][k] == t[p + k];
  }

  lemma {:induction false} BytesExtend(t: seq<byte>, start: nat, p: nat, acc: seq<byte>)
    requires ParseChars(t, start, p, acc).Chars?
    ensures acc <= ParseChars(t, start, p, acc).bytes
    decreases |t| - p
  {
    match ParseChar(t, start, p)
    case Put(bytes, q) => BytesExtend(t, start, q, acc + bytes);
    case _ =>
  }

  /** Once an escape was read, what is read stays behind the text of s: r bytes of s are read, and they
      gave no more than r bytes. So if s comes out, or begins what comes out, s has no escape. */
  lemma {:induction false} FallsBehind(t: seq<byte>, start: nat, p: nat, s: seq<byte>, r: nat, acc: seq<byte>)
    requires At(t, p, s + [QUOTE]) && r <= |s| && forall i | 0 <= i < r :: s[i] != QUOTE
    requires |acc| <= r && (|acc| == r ==> acc == s[..r] && Clean(s[..r]))
    requires ParseChars(t, start, p + r, acc).Chars? && s <= ParseChars(t, start, p + r, acc).bytes
    ensures Clean(s)
    decreases |s| - r
  {
    AtPeek(t, p, s + [QUOTE], r);
    if r == |s| {
      assert s[..r] == s;
    } else if s[r] == BACKSLASH {
      EscapeFallsBehind(t, start, p, s, r, acc);
    } else {
      assert ParseChars(t, start, p + r, acc) == ParseChars(t, start, p + r + 1, acc + [s[r]]);
      if |acc| == r { assert s[..r + 1] == s[..r] + [s[r]]; }
      FallsBehind(t, start, p, s, r + 1, acc + [s[r]]);
    }
  }

  /** A quote that comes out before a quote was read: what comes out does not begin with s. */
  lemma QuoteTooEarly(s: seq<byte>, r: nat, acc: seq<byte>, bytes: seq<byte>)
    requires |acc| <= r < |s| && s[r] == BACKSLASH && forall i | 0 <= i < r :: s[i] != QUOTE
    requires acc + [QUOTE] <= bytes
    ensures !(s <= bytes)
  {
    assert bytes[|acc|] == (acc + [QUOTE])[|acc|];
    assert s[|acc|] != bytes[|acc|];
  }

  lemma {:induction false} EscapeFallsBehind(t: seq<byte>, start: nat, p: nat, s: seq<byte>, r: nat, acc: seq<byte>)
    requires At(t, p, s + [QUOTE]) && r < |s| && s[r] == BACKSLASH && Peek(t, p + r) == BACKSLASH
    requires |acc| <= r && forall i | 0 <= i < r :: s[i] != QUOTE
    requires ParseChars(t, start, p + r, acc).Chars? && s <= ParseChars(t, start, p + r, acc).bytes
    ensures Clean(s)
    decreases |s| - r, 0
  {
    var c := FindsChar(t, start, p + r);
    var n := CharEnd(p + r, c) - p;
    assert ParseChars(t, start, p + r, acc) == ParseChars(t, start, p + n, acc + CharBytes(c));
    if c.Short? && c.e == QUOTE {
      BytesExtend(t, start, p + n, acc + [QUOTE]);
      QuoteTooEarly(s, r, acc, ParseChars(t, start, p + n, acc + [QUOTE]).bytes);
    } else {
      QuoteIsBeyond(t, p, s, r, c);
      FallsBehind(t, start, p, s, n, acc + CharBytes(c));
    }
  }

  /** An escape other than that of a quote lies within s, and has no quote in it. */
  lemma QuoteIsBeyond(t: seq<byte>, p: nat, s: seq<byte>, r: nat, c: Char)
    requires At(t, p, s + [QUOTE]) && r < |s| && s[r] == BACKSLASH && CharAt(t, p + r, c)
    requires !c.Raw? && !(c.Short? && c.e == QUOTE)
    ensures var n := CharEnd(p + r, c) - p;
      n <= |s| && n > r + |CharBytes(c)| && forall i | r <= i < n :: s[i] != QUOTE
  {
    var n := CharEnd(p + r, c) - p;
    if n > |s| {
      AtPeek(t, p, s + [QUOTE], |s|);
      EscapeHasNoQuote(t, p + r, c, |s| - r);
      assert false;
    }
    forall i | r <= i < n ensures s[i] != QUOTE {
      AtPeek(t, p, s + [QUOTE], i);
      EscapeHasNoQuote(t, p + r, c, i - r);
    }
  }

  lemma EscapeHasNoQuote(t: seq<byte>, p: nat, c: Char, k: nat)
    requires CharAt(t, p, c) && !c.Raw? && !(c.Short? && c.e == QUOTE) && k < CharEnd(p, c) - p
    ensures Peek(t, p + k) != QUOTE
  {
    match c {
      case Unit(hex) => if k >= 2 { AtPeek(t, p + 2, hex, k - 2); }
      case Pair(hi, lo) =>
        if 2 <= k < 6 { AtPeek(t, p + 2, hi, k - 2); }
        if k >= 8 { AtPeek(t, p + 8, lo, k - 8); }
      case _ =>
    }
  }

  lemma {:induction false} CleanText(s: seq<byte>)
    requires Clean(s)
    ensures CharsText(CharsFor(s)) == s
    decreases |s|
  {
    CharsForSplits(s);
    if s != [] {
      assert CharFor(s[0]) == Raw(s[0]);
      hide CharFor, CharsFor;
      CleanText(s[1..]);
      assert [s[0]] + s[1..] == s;
    }
  }

  /** A string that is written between quotes as it is comes back exactly when it has no quote, no
      backslash and no control character. */
  lemma ReadsBackExactlyIfClean(t: seq<byte>, p: nat, ev: seq<Event>, s: seq<byte>)
    requires At(t, p, [QUOTE] + (s + [QUOTE]))
    ensures ParseString(t, p, ev).Done? && ParseString(t, p, ev).events == ev + [String(Copied(s))] <==> Clean(s)
  {
    if Clean(s) {
      CleanText(s);
      StringRoundTrip(t, p, ev, s);
    } else if ParseString(t, p, ev).Done? && ParseString(t, p, ev).events == ev + [String(Copied(s))] {
      AtConcat(t, p, [QUOTE], s + [QUOTE]);
      var got := ParseChars(t, p, p + 1, []);
      assert (ev + [String(Copied(got.bytes))])[|ev|] == (ev + [String(Copied(s))])[|ev|];
      assert s[..0] == [];
      FallsBehind(t, p, p + 1, s, 0, []);
    }
  }
}
