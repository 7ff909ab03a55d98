/** Lengths and counts in the 32 bits of SizeType: a string with its NUL, the members of an object, the
    elements of an array. None is more than the bytes of the text. */
module Sizes {
  import opened Options
  import opened Bytes
  import opened Decimal
  import opened Json
  import opened Limits
  import opened Utf
  import opened ReaderSpec

  /** A size as SizeType keeps it. */
  function Narrow(size: nat): nat { size % 0x1_0000_0000 }

  /** What is counted for a handler call. */
  function SizeOf(e: Event): nat {
    match e
    case String(Copied(bytes)) => |bytes| + 1
    case String(InPlace(_, len)) => len + 1
    case EndObject(memberCount) => memberCount
    case EndArray(elementCount) => elementCount
    case _ => 0
  }

  predicate Within(events: seq<Event>, limit: nat) { forall i | 0 <= i < |events| :: SizeOf(events[i]) <= limit }

  lemma OneWithin(ev: seq<Event>, e: Event, limit: nat)
    requires Within(ev, limit) && SizeOf(e) <= limit
    ensures Within(ev + [e], limit)
  {}

  /** A string has no more bytes than its text. */
  lemma {:induction false} CharsWithin(t: seq<byte>, start: nat, p: nat, acc: seq<byte>)
    ensures var r := ParseChars(t, start, p, acc);
      r.Chars? ==> |r.bytes| + 1 <= |acc| + (r.pos - p)
    decreases |t| - p
  {
    hide ParseUnicode, Utf8;
    var turn := ParseChar(t, start, p);
    CharWithin(t, start, p);
    if turn.Put? { CharsWithin(t, start, turn.pos, acc + turn.bytes); }
  }

  lemma CharWithin(t: seq<byte>, start: nat, p: nat)
    ensures var r := ParseChar(t, start, p);
      r.Put? ==> |r.bytes| <= r.pos - p
  {
    hide ParseHex4;
  }

  lemma StringWithin(t: seq<byte>, p: nat, ev: seq<Event>)
    requires Within(ev, |t|)
    ensures Within(ParseString(t, p, ev).events, |t|)
  {
    hide Within, ParseChars;
    CharsWithin(t, p, p + 1, []);
    var r := ParseChars(t, p, p + 1, []);
    if r.Chars? { OneWithin(ev, String(Copied(r.bytes)), |t|); }
  }

  lemma ExponentWithin(t: seq<byte>, start: nat, p: nat, ev: seq<Event>, plain: Option<Event>)
    requires start < p <= |t| && Within(ev, |t|) && (plain.Some? ==> SizeOf(plain.value) == 0)
    ensures Within(ParseExponent(t, start, p, ev, plain).events, |t|)
  {
    hide Within, DigitsEnd, Val;
    var r := ParseExponent(t, start, p, ev, plain);
    if r.Done? {
      OneWithin(ev, Double(t[start..r.pos]), |t|);
      if plain.Some? { OneWithin(ev, plain.value, |t|); }
    }
  }

  lemma NumberWithin(huge: Rounding, t: seq<byte>, p: nat, ev: seq<Event>)
    requires Within(ev, |t|)
    ensures Within(ParseNumber(huge, t, p, ev).events, |t|)
  {
    hide Within, TooHuge, ParseExponent, DigitsEnd, Val;
    var p0 := if Peek(t, p) == MINUS then p + 1 else p;
    if IsDigit(Peek(t, p0)) {
      var p1 := WholeEnd(t, p0);
      ExponentWithin(t, p, p1, ev, Some(IntegerEvent(Peek(t, p) == MINUS, t[p0..p1], t[p..p1])));
      if Peek(t, p1) == DOT { ExponentWithin(t, p, DigitsEnd(t, p1 + 1), ev, None); }
    }
  }

  lemma {:induction false} ValueWithin(huge: Rounding, t: seq<byte>, p: nat, ev: seq<Event>)
    requires Within(ev, |t|)
    ensures Within(ParseValue(huge, t, p, ev).events, |t|)
    decreases |t| - p, 2
  {
    hide Within, ParseString, ParseNumber, ParseObject, ParseArray, Matched;
    var c := Peek(t, p);
    if c == QUOTE {
      StringWithin(t, p, ev);
    } else if c == LBRACE {
      ObjectWithin(huge, t, p, ev);
    } else if c == LBRACKET {
      ArrayWithin(huge, t, p, ev);
    } else {
      NumberWithin(huge, t, p, ev);
      OneWithin(ev, Null, |t|);
      OneWithin(ev, Bool(true), |t|);
      OneWithin(ev, Bool(false), |t|);
    }
  }

  lemma {:induction false} ObjectWithin(huge: Rounding, t: seq<byte>, p: nat, ev: seq<Event>)
    requires Peek(t, p) == LBRACE && Within(ev, |t|)
    ensures Within(ParseObject(huge, t, p, ev).events, |t|)
    decreases |t| - p, 1
  {
    hide Within, ParseMembers;
    OneWithin(ev, StartObject, |t|);
    OneWithin(ev + [StartObject], EndObject(0), |t|);
    MembersWithin(huge, t, SkipWs(t, p + 1), ev + [StartObject], 0);
  }

  lemma {:induction false} MemberWithin(huge: Rounding, t: seq<byte>, p: nat, ev: seq<Event>)
    requires Within(ev, |t|)
    ensures Within(ParseMember(huge, t, p, ev).events, |t|)
    decreases |t| - p, 3
  {
    hide Within, ParseString, ParseValue;
    if Peek(t, p) == QUOTE {
      StringWithin(t, p, ev);
      var r := ParseString(t, p, ev);
      if r.Done? {
        var q := SkipWs(t, r.pos);
        if Peek(t, q) == COLON { ValueWithin(huge, t, SkipWs(t, q + 1), r.events); }
      }
    }
  }

  lemma {:induction false} MembersWithin(huge: Rounding, t: seq<byte>, p: nat, ev: seq<Event>, n: nat)
    requires Within(ev, |t|) && n <= p
    ensures Within(ParseMembers(huge, t, p, ev, n).events, |t|)
    decreases |t| - p, 4
  {
    hide Within, ParseMember;
    MemberWithin(huge, t, p, ev);
    var r := ParseMember(huge, t, p, ev);
    if r.Done? {
      match TakeSeparator(t, r.pos, RBRACE) {
        case More(q) => MembersWithin(huge, t, q, r.events, n + 1);
        case End(q) => OneWithin(r.events, EndObject(n + 1), |t|);
        case NoSeparator(_) =>
      }
    }
  }

  lemma {:induction false} ArrayWithin(huge: Rounding, t: seq<byte>, p: nat, ev: seq<Event>)
    requires Peek(t, p) == LBRACKET && Within(ev, |t|)
    ensures Within(ParseArray(huge, t, p, ev).events, |t|)
    decreases |t| - p, 1
  {
    hide Within, ParseElements;
    OneWithin(ev, StartArray, |t|);
    OneWithin(ev + [StartArray], EndArray(0), |t|);
    ElementsWithin(huge, t, SkipWs(t, p + 1), ev + [StartArray], 0);
  }

  lemma {:induction false} ElementsWithin(huge: Rounding, t: seq<byte>, p: nat, ev: seq<Event>, n: nat)
    requires Within(ev, |t|) && n <= p
    ensures Within(ParseElements(huge, t, p, ev, n).events, |t|)
    decreases |t| - p, 3
  {
    hide Within, ParseValue;
    ValueWithin(huge, t, p, ev);
    var r := ParseValue(huge, t, p, ev);
    if r.Done? {
      match TakeSeparator(t, SkipWs(t, r.pos), RBRACKET) {
        case More(q) => ElementsWithin(huge, t, q, r.events, n + 1);
        case End(q) => OneWithin(r.events, EndArray(n + 1), |t|);
        case NoSeparator(_) =>
      }
    }
  }

  /** Whether it is accepted or not, a text shorter than 2^32 bytes makes no call whose size wraps. */
  lemma ShortTextsFit(huge: Rounding, t: seq<byte>)
    requires |t| < 0x1_0000_0000
    ensures forall i | 0 <= i < |Parse(huge, t).events| ::
      Narrow(SizeOf(Parse(huge, t).events[i])) == SizeOf(Parse(huge, t).events[i])
  {
    hide ParseValue;
    ValueWithin(huge, t, SkipWs(t, 0), []);
  }

  // --- longer strings ---

  /** The bytes that the copying mode takes back from its stack for a string s: as many as were counted. */
  function Popped(s: seq<byte>): seq<byte> { (s + [0])[|s| + 1 - Narrow(|s| + 1)..] }

  /** What the in-place mode asserts of a length. */
  predicate Asserted(length: nat) { length <= 0xFFFF_FFFF }

  /** Copying keeps a string whole exactly when it has fewer than 2^32 - 1 bytes. In place, the assertion
      lets one byte more pass: there, and only there, one mode goes on with the string and the other loses it. */
  lemma ModesPartAt(s: seq<byte>)
    ensures Popped(s) == s + [0] <==> |s| < 0xFFFF_FFFF
    ensures Asserted(|s|) && Popped(s) != s + [0] <==> |s| == 0xFFFF_FFFF
  {
    if |s| < 0xFFFF_FFFF {
      assert Narrow(|s| + 1) == |s| + 1;
    } else {
      assert |Popped(s)| == Narrow(|s| + 1) < |s| + 1;
    }
  }
}
