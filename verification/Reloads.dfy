/** When saved records come back: the strings in the loaded records are strings of the text, so if all
    come back, none has a character that would need an escape. */
module Reloads {
  import opened Options
  import opened Bytes
  import opened Decimal
  import opened Json
  import opened Limits
  import opened ReaderSpec
  import opened Grammar
  import opened Places
  import opened Soundness
  import opened Dom
  import opened Builds
  import opened Printing
  import opened RoundTrip
  import opened Registries
  import opened RegistryTexts
  import opened RegistryLoads
  import opened FieldTexts
  import opened RecordPieces
  import opened RecordTokens

  // --- from loaded records to the text ---

  /** Some string value of the text is read as s. */
  ghost predicate Occurs(t: seq<byte>, s: seq<byte>) {
    exists a: nat, cs: seq<Char> :: ValueString(t, a, cs) && CString(CharsBytes(cs, [])) == s
  }

  /** A record that was loaded comes from an element. */
  lemma {:induction false} RowOf(vs: seq<Value>, atol: seq<byte> -> int, clock: nat -> nat, i: nat,
    acc: seq<Registry>, r: Registry)
      returns (k: nat)
    requires ReadRows(vs, atol, clock, i, acc).Some? && r in ReadRows(vs, atol, clock, i, acc).value && r !in acc
    ensures k < |vs| && ReadRow(vs[k], atol, clock(2 * (i + k)), clock(2 * (i + k) + 1)) == Record(r)
    decreases |vs|
  {
    hide ReadRow;
    var row := ReadRow(vs[0], atol, clock(2 * i), clock(2 * i + 1));
    if row == Record(r) {
      k := 0;
    } else {
      k := RowOf(vs[1..], atol, clock, i + 1, if row.Record? then acc + [row.r] else acc, r);
      k := k + 1;
    }
  }

  /** An element stands in the text. */
  lemma {:induction false} ElementOf(t: seq<byte>, p: nat, es: Elements, acc: seq<Value>, k: nat)
      returns (q: nat, tree: Tree)
    requires ElementsAt(t, p, es) && |acc| <= k < |ElementsOf(es, acc)|
    ensures TreeAt(t, q, tree) && ValueOf(tree) == ElementsOf(es, acc)[k]
    decreases es
  {
    hide TreeAt, TreeEnd, ValueOf;
    ElementsExtend(es, acc);
    if k == |acc| {
      q, tree := p, es.v;
    } else {
      q, tree := ElementOf(t, GapEnd(ElementEnd(p, es), es.gap), es.rest, acc + [ValueOf(es.v)], k);
    }
  }

  lemma {:induction false} ElementsExtend(es: Elements, acc: seq<Value>)
    ensures |acc| < |ElementsOf(es, acc)| && ElementsOf(es, acc)[|acc|] == ValueOf(es.v)
    ensures es.LastElement? ==> |ElementsOf(es, acc)| == |acc| + 1
    ensures acc <= ElementsOf(es, acc)
    decreases es
  {
    hide ValueOf;
    if es.MoreElements? { ElementsExtend(es.rest, acc + [ValueOf(es.v)]); }
  }

  /** A member stands in the text, before a comma or a brace. */
  lemma {:induction false} FieldIn(t: seq<byte>, p: nat, ms: Members, acc: seq<Field>, f: Field)
      returns (q: nat, m: Member)
    requires MembersAt(t, p, ms) && f in FieldsOf(ms, acc) && f !in acc
    ensures MemberAt(t, q, m) && FieldOf(m) == f && Follows(Peek(t, MemberEnd(q, m)))
    decreases ms
  {
    hide MemberAt, MemberEnd, FieldOf;
    if FieldOf(ms.m) == f {
      q, m := p, ms.m;
    } else {
      q, m := FieldIn(t, GapEnd(MemberEnd(p, ms.m), ms.gap), ms.rest, acc + [FieldOf(ms.m)], f);
    }
  }

  lemma {:induction false} MemberFound(fields: seq<Field>, name: seq<byte>) returns (f: Field)
    requires FindMember(fields, name).Some?
    ensures f in fields && FindMember(fields, name) == Some(f.value)
  {
    if fields[0].name == Copied(name) {
      f := fields[0];
    } else {
      f := MemberFound(fields[1..], name);
    }
  }

  /** A member's string value stands in the text as such. */
  lemma StringOf(t: seq<byte>, q: nat, m: Member) returns (a: nat, cs: seq<Char>)
    requires MemberAt(t, q, m) && Follows(Peek(t, MemberEnd(q, m))) && ValueOf(m.value).VString?
    ensures ValueString(t, a, cs) && ValueOf(m.value) == VString(Copied(CharsBytes(cs, [])))
  {
    hide CharsAt, CharsBytes, CharsEnd, StringEnd, ColonPos, Follows, NumeralAt;
    assert m.value.TString?;
    a, cs := GapEnd(ColonPos(q, m), m.gap2), m.value.chars;
    assert ValueAt(t, ColonPos(q, m), m) && TreeAt(t, a, m.value);
    assert MemberEnd(q, m) == ValueEnd(ColonPos(q, m), m) == TreeEnd(a, m.value) + |m.after|;
    AfterString(t, StringEnd(a, cs), m.after);
  }

  lemma AfterString(t: seq<byte>, p: nat, gap: Gap)
    requires At(t, p, gap) && Follows(Peek(t, p + |gap|))
    ensures Follows(Peek(t, p))
  {}

  lemma FieldOccurs(t: seq<byte>, p: nat, ms: Members, name: seq<byte>)
    requires var found := FindMember(FieldsOf(ms, []), name);
      MembersAt(t, p, ms) && found.Some? && found.value.VString?
    ensures Occurs(t, CString(BytesOf(FindMember(FieldsOf(ms, []), name).value.str)))
  {
    hide MembersAt, FieldsOf, FindMember, ValueOf, MemberAt, MemberEnd, ValueString, CharsBytes, CString;
    var f := MemberFound(FieldsOf(ms, []), name);
    var q, m := FieldIn(t, p, ms, [], f);
    var a, cs := StringOf(t, q, m);
  }

  /** The name and the host of an element that is loaded are read from string values of the text. */
  lemma ElementOccurs(t: seq<byte>, q: nat, tree: Tree, atol: seq<byte> -> int, made: nat, filled: nat, r: Registry)
    requires TreeAt(t, q, tree) && ReadRow(ValueOf(tree), atol, made, filled) == Record(r)
    ensures Occurs(t, r.name) && Occurs(t, r.host)
  {
    hide MembersAt, CharsAt, NumeralAt, FieldsOf, Occurs, CString, CharsBytes, NumeralEvent, ElementsOf;
    assert tree.TEmptyObject? || tree.TObject?;
    if tree.TObject? {
      hide FindMember;
      FieldOccurs(t, GapEnd(q, tree.gap), tree.members, NAME);
      FieldOccurs(t, GapEnd(q, tree.gap), tree.members, HOST);
    }
  }

  /** So are those of every record that is loaded. */
  lemma RecordOccurs(huge: Rounding, atol: seq<byte> -> int, t: seq<byte>, clock: nat -> nat, r: Registry)
    requires 0 !in t && Loaded(huge, atol, t, clock).Some? && r in Loaded(huge, atol, t, clock).value
    ensures Occurs(t, r.name) && Occurs(t, r.host)
  {
    hide ReadRow, Occurs, TreeAt, TreeEnd, Emit, Run, ParseValue;
    var p := SkipWs(t, 0);
    var tree := FindsValue(huge, t, p, []);
    var root := RootIsBracket(huge, t);
    BuildsRoot(tree);
    var k := RowOf(root.elements, atol, clock, 0, [], r);
    var q, e := RootElement(t, p, tree, k);
    ElementOccurs(t, q, e, atol, clock(2 * k), clock(2 * k + 1), r);
  }

  lemma BuildsRoot(tree: Tree)
    ensures Run(Emit(tree, [])) == Some([ValueOf(tree)])
  {
    assert Run([]) == Some([]);
    hide Run, Emit, ValueOf;
    BuildsValue(tree, [], []);
    assert [] + [ValueOf(tree)] == [ValueOf(tree)];
  }

  lemma RootElement(t: seq<byte>, p: nat, tree: Tree, k: nat) returns (q: nat, e: Tree)
    requires TreeAt(t, p, tree) && ValueOf(tree).VArray? && k < |ValueOf(tree).elements|
    ensures TreeAt(t, q, e) && ValueOf(e) == ValueOf(tree).elements[k]
  {
    hide ElementsOf, FieldsOf, ElementsAt, MembersAt, CharsAt, NumeralAt, NumeralEvent, CharsBytes;
    assert tree.TArray? || tree.TEmptyArray?;
    if tree.TArray? { q, e := ElementOf(t, GapEnd(p, tree.gap), tree.elements, [], k); }
  }

  // --- from the text to its names and hosts ---

  /** What is loaded is a C string. */
  lemma RowsEnd(huge: Rounding, atol: seq<byte> -> int, t: seq<byte>, clock: nat -> nat, r: Registry)
    requires Loaded(huge, atol, t, clock).Some? && r in Loaded(huge, atol, t, clock).value
    ensures 0 !in r.name && 0 !in r.host
  {
    hide Run, Parse;
    var stack := Run(Parse(huge, CString(t)).events).value;
    var k := RowOf(stack[0].elements, atol, clock, 0, [], r);
    hide FindMember;
  }

  lemma {:induction false} PiecesEnd(v: seq<Registry>, weights: seq<int>, j: nat)
    requires |weights| == |v| && j <= 12 * |v|
    requires forall i | 0 <= i < |v| :: 0 !in v[i].name && 0 !in v[i].host
    ensures 0 !in Through(v, weights, j)
  {
    hide Piece, Upto;
    PieceEnds(v, weights, j);
    if j > 0 {
      UptoNext(v, weights, j - 1);
      PiecesEnd(v, weights, j - 1);
    } else {
      NothingBefore(v, weights);
    }
  }

  lemma NothingBefore(v: seq<Registry>, weights: seq<int>)
    requires |weights| == |v|
    ensures Upto(v, weights, 0) == []
  {}

  lemma PieceEnds(v: seq<Registry>, weights: seq<int>, j: nat)
    requires |weights| == |v| && j <= 12 * |v|
    requires forall i | 0 <= i < |v| :: 0 !in v[i].name && 0 !in v[i].host
    ensures 0 !in Piece(v, weights, j)
  {
    if j > 0 && j % 12 == 0 {
      IntEnds(weights[j / 12 - 1]);
    } else if j > 0 {
      IntEnds(v[j / 12].port);
    }
    hide IntText;
  }

  lemma IntEnds(i: int)
    ensures 0 !in IntText(i)
  {
    ValDigits(if i < 0 then -i else i);
  }

  lemma CStringShrinks(s: seq<byte>)
    ensures |CString(s)| <= |s|
  {}

  lemma CleanEnds(s: seq<byte>)
    requires Clean(s)
    ensures 0 !in s
  {}

  /** If every name and host occurs, none is unclean: what occurs as an unclean one is found in a longer
      one, which is unclean itself. */
  lemma {:induction false} NoneIsUnclean(v: seq<Registry>, weights: seq<int>, t: seq<byte>, j: nat)
    requires |weights| == |v| > 0 && t == Through(v, weights, 12 * |v|) && j <= 12 * |v| && IsSlot(j)
    requires forall i: nat | i <= 12 * |v| && IsSlot(i) :: Occurs(t, Piece(v, weights, i))
    ensures Clean(Piece(v, weights, j))
    decreases |t| - |Piece(v, weights, j)|
  {
    hide Through, Upto, Piece, ValueString, CharsBytes, CString, IsSlot;
    var s := Piece(v, weights, j);
    var a: nat, cs: seq<Char> :| ValueString(t, a, cs) && CString(CharsBytes(cs, [])) == s;
    var d := CharsBytes(cs, []);
    CStringShrinks(d);
    var k := ValueIsWithin(v, weights, t, a, cs);
    if d == [COLON] {
      CleanEnds([COLON]);
    } else {
      PiecePlace(v, weights, t, k);
      if Clean(Piece(v, weights, k)) {
        CleanEnds(d);
      } else {
        NoneIsUnclean(v, weights, t, k);
      }
    }
  }

  /** An equal record is among the rows. */
  predicate HasEqual(rows: seq<Registry>, r: Registry) { exists k | 0 <= k < |rows| :: Equals(rows[k], r) }

  predicate Among(v: seq<Registry>, rows: seq<Registry>) { forall i | 0 <= i < |v| :: HasEqual(rows, v[i]) }

  lemma SlotOf(v: seq<Registry>, weights: seq<int>, j: nat)
    requires |weights| == |v| && j <= 12 * |v| && IsSlot(j)
    ensures j / 12 < |v| && Piece(v, weights, j) == if j % 12 == 3 then v[j / 12].name else v[j / 12].host
  {}

  lemma AllEnd(huge: Rounding, v: seq<Registry>, atol: seq<byte> -> int, t: seq<byte>, clock: nat -> nat)
    requires Loaded(huge, atol, t, clock).Some? && Among(v, Loaded(huge, atol, t, clock).value)
    ensures forall i | 0 <= i < |v| :: 0 !in v[i].name && 0 !in v[i].host
  {
    hide Loaded;
    var rows := Loaded(huge, atol, t, clock).value;
    forall i | 0 <= i < |v| ensures 0 !in v[i].name && 0 !in v[i].host {
      assert HasEqual(rows, v[i]);
      var k :| 0 <= k < |rows| && Equals(rows[k], v[i]);
      RowsEnd(huge, atol, t, clock, rows[k]);
    }
  }

  lemma SlotOccurs(huge: Rounding, v: seq<Registry>, weights: seq<int>, atol: seq<byte> -> int, t: seq<byte>,
    clock: nat -> nat, j: nat)
    requires |weights| == |v| && j <= 12 * |v| && IsSlot(j) && 0 !in t
    requires Loaded(huge, atol, t, clock).Some? && Among(v, Loaded(huge, atol, t, clock).value)
    ensures Occurs(t, Piece(v, weights, j))
  {
    hide Loaded, Occurs, Piece;
    SlotOf(v, weights, j);
    var rows := Loaded(huge, atol, t, clock).value;
    assert HasEqual(rows, v[j / 12]);
    var k :| 0 <= k < |rows| && Equals(rows[k], v[j / 12]);
    RecordOccurs(huge, atol, t, clock, rows[k]);
  }

  /** If each record comes back, every name and host is clean. */
  lemma AllAreClean(huge: Rounding, v: seq<Registry>, weights: seq<int>, atol: seq<byte> -> int, clock: nat -> nat)
    requires |weights| == |v| && Loaded(huge, atol, RecordsTo([LBRACKET], v, weights, true), clock).Some?
    requires Among(v, Loaded(huge, atol, RecordsTo([LBRACKET], v, weights, true), clock).value)
    ensures forall i | 0 <= i < |v| :: Clean(v[i].name) && Clean(v[i].host)
  {
    if v != [] {
      hide *;
      var t := Through(v, weights, 12 * |v|);
      TextIsPieces(v, weights);
      AllEnd(huge, v, atol, t, clock);
      PiecesEnd(v, weights, 12 * |v|);
      forall j: nat | j <= 12 * |v| && IsSlot(j) ensures Occurs(t, Piece(v, weights, j)) {
        SlotOccurs(huge, v, weights, atol, t, clock, j);
      }
      forall i | 0 <= i < |v| ensures Clean(v[i].name) && Clean(v[i].host) { RecordIsClean(v, weights, t, i); }
    }
  }

  lemma RecordIsClean(v: seq<Registry>, weights: seq<int>, t: seq<byte>, i: nat)
    requires |weights| == |v| && i < |v| && t == Through(v, weights, 12 * |v|)
    requires forall j: nat | j <= 12 * |v| && IsSlot(j) :: Occurs(t, Piece(v, weights, j))
    ensures Clean(v[i].name) && Clean(v[i].host)
  {
    hide *;
    SlotsOf(v, weights, i);
    NoneIsUnclean(v, weights, t, 12 * i + 3);
    NoneIsUnclean(v, weights, t, 12 * i + 7);
  }

  lemma SlotsOf(v: seq<Registry>, weights: seq<int>, i: nat)
    requires |weights| == |v| && i < |v|
    ensures IsSlot(12 * i + 3) && IsSlot(12 * i + 7)
    ensures Piece(v, weights, 12 * i + 3) == v[i].name && Piece(v, weights, 12 * i + 7) == v[i].host
  {
    hide Piece;
    PieceOf(v, weights, i, 3);
    PieceOf(v, weights, i, 7);
  }

  /** Saving and loading records gives the same names, hosts and ports in the same order exactly when no
      name and no host has a quote, a backslash or a control byte. */
  lemma RecordsReloadExactlyIfClean(huge: Rounding, v: seq<Registry>, weights: seq<int>, atol: seq<byte> -> int,
    clock: nat -> nat)
    requires |weights| == |v| && forall i | 0 <= i < |v| :: Fits32(v[i].port) && Fits32(weights[i])
    ensures Loaded(huge, atol, RecordsTo([LBRACKET], v, weights, true), clock) == Some(AllReloaded(v, clock, 0))
      <==> forall i | 0 <= i < |v| :: Clean(v[i].name) && Clean(v[i].host)
  {
    var rows := AllReloaded(v, clock, 0);
    hide Loaded, RecordsTo, Clean, Reloaded;
    if Loaded(huge, atol, RecordsTo([LBRACKET], v, weights, true), clock) == Some(rows) {
      assert forall i | 0 <= i < |v| :: rows[i] in rows && Equals(rows[i], v[i]);
      AllAreClean(huge, v, weights, atol, clock);
    }
    if forall i | 0 <= i < |v| :: Clean(v[i].name) && Clean(v[i].host) {
      SavedRecordsLoad(huge, v, weights, atol, clock);
    }
  }

  // --- a cache that is lost ---

  /** How the text begins if the first name is a quote. */
  const QUOTED_NAME: seq<byte> :=
    [LBRACKET, LBRACE, QUOTE, 0x6E, 0x61, 0x6D, 0x65, QUOTE, COLON, QUOTE, QUOTE, QUOTE]

  lemma {:induction false} CStringStarts(s: seq<byte>, k: nat)
    requires k <= |s| && 0 !in s[..k]
    ensures s[..k] <= CString(s)
    decreases k
  {
    if k > 0 {
      assert s[1..][..k - 1] == s[..k][1..];
      CStringStarts(s[1..], k - 1);
      assert s[..k] == [s[0]] + s[1..][..k - 1];
    }
  }

  lemma BeginsQuoted(v: seq<Registry>, weights: seq<int>)
    requires |weights| == |v| > 0 && v[0].name == [QUOTE]
    ensures QUOTED_NAME <= Through(v, weights, 12 * |v|)
  {
    NothingBefore(v, weights);
    assert Piece(v, weights, 0) == [LBRACKET] + [LBRACE];
    hide *;
    Fixed(v[0]);
    UptoNext(v, weights, 0);
    UptoIn(v, weights, 0, 1);
    UptoIn(v, weights, 0, 2);
    UptoIn(v, weights, 0, 3);
    PiecesPrefix(v, weights, 3);
    QuotedPieces();
  }

  lemma QuotedPieces()
    ensures [] + ([LBRACKET] + [LBRACE]) + [QUOTE] + NAME + [QUOTE] + [COLON] + [QUOTE] + [QUOTE] + [QUOTE]
      == QUOTED_NAME
  {}

  lemma CleanString(t: seq<byte>, p: nat, ev: seq<Event>, s: seq<byte>)
    requires Clean(s) && Stands(t, p, [QUOTE] + (s + [QUOTE]))
    ensures ParseString(t, p, ev) == Done(ev + [String(Copied(s))], p + |s| + 2)
  {
    hide CharsFor, CharsText, Clean, ParseString;
    AtSlice(t, p, [QUOTE] + (s + [QUOTE]));
    CleanText(s);
    StringRoundTrip(t, p, ev, s);
  }

  /** A member with an empty value. */
  lemma ReadsEmptyName(huge: Rounding, t: seq<byte>, ev: seq<Event>)
    requires QUOTED_NAME <= t
    ensures var r := ParseMember(huge, t, 2, ev);
      r.Done? && r.pos == 11
  {
    hide ParseString;
    assert t[2..8] == [QUOTE] + (NAME + [QUOTE]) && t[9..11] == [QUOTE] + ([] + [QUOTE]);
    CleanString(t, 2, ev, NAME);
    CleanString(t, 9, ev + [String(Copied(NAME))], []);
    var ev1 := ev + [String(Copied(NAME))];
    assert SkipWs(t, 8) == 8 && SkipWs(t, 9) == 9 && SkipWs(t, 11) == 11;
    assert ParseValue(huge, t, 9, ev1) == ParseString(t, 9, ev1);
    assert ParseMember(huge, t, 2, ev) == ParseMemberValue(huge, t, 8, ev1);
  }

  /** The reader finds a name, an empty value, and a quote in place of a comma. */
  lemma QuotedFails(huge: Rounding, t: seq<byte>)
    requires QUOTED_NAME <= t
    ensures Parse(huge, t).Fail?
  {
    hide ParseString, ParseMember;
    assert SkipWs(t, 0) == 0 && SkipWs(t, 1) == 1 && SkipWs(t, 2) == 2 && SkipWs(t, 11) == 11;
    var ev := [StartArray];
    ReadsEmptyName(huge, t, ev + [StartObject]);
    assert ParseMembers(huge, t, 2, ev + [StartObject], 0).Fail?;
    assert ParseValue(huge, t, 1, ev) == ParseObject(huge, t, 1, ev);
    assert ParseElements(huge, t, 1, ev, 0).Fail?;
    assert [] + [StartArray] == ev;
    assert ParseValue(huge, t, 0, []) == ParseArray(huge, t, 0, []);
  }

  /** One bad name loses the whole file: if the name of the first record is a quote, nothing is loaded. */
  lemma QuoteLosesAll(huge: Rounding, v: seq<Registry>, weights: seq<int>, atol: seq<byte> -> int,
    clock: nat -> nat)
    requires |weights| == |v| > 0 && v[0].name == [QUOTE]
    ensures Loaded(huge, atol, RecordsTo([LBRACKET], v, weights, true), clock) == Some([])
  {
    hide Through, RecordsTo, Parse, CString, Run;
    TextIsPieces(v, weights);
    BeginsQuoted(v, weights);
    var t := Through(v, weights, 12 * |v|);
    assert t[..12] == QUOTED_NAME;
    CStringStarts(t, 12);
    QuotedFails(huge, CString(t));
  }
}
