/** The hand-written text of records is JSON: the text of a syntax tree, if no name needs escapes. */
module RegistryTexts {
  import opened Bytes
  import opened Grammar
  import opened Rendering
  import opened Printing
  import opened RoundTrip
  import opened Registries

  /** No quote, no backslash, no control character. */
  predicate Clean(s: seq<byte>) { forall i | 0 <= i < |s| :: s[i] >= 0x20 && s[i] != QUOTE && s[i] != BACKSLASH }

  function MemberOf(key: seq<byte>, value: Tree, after: Gap): Member { Member(CharsFor(key), [], [], value, after) }

  function WeightMember(weight: int): Members { LastMember(MemberOf(WEIGHT, TNumber(NumeralFor(weight)), [SPACE])) }

  function PortMember(port: int, weight: int): Members {
    MoreMembers(MemberOf(PORT, TNumber(NumeralFor(port)), []), [], WeightMember(weight))
  }

  function HostMember(host: seq<byte>, port: int, weight: int): Members {
    MoreMembers(MemberOf(HOST, TString(CharsFor(host)), []), [], PortMember(port, weight))
  }

  function RecordTree(r: Registry, weight: int): Tree {
    TObject([], MoreMembers(MemberOf(NAME, TString(CharsFor(r.name)), []), [], HostMember(r.host, r.port, weight)))
  }

  function RecordElements(v: seq<Registry>, weights: seq<int>): Elements
    requires |weights| == |v| > 0
  {
    if |v| == 1 then LastElement(RecordTree(v[0], weights[0]), [])
    else MoreElements(RecordTree(v[0], weights[0]), [], [LF], RecordElements(v[1..], weights[1..]))
  }

  function RecordsTree(v: seq<Registry>, weights: seq<int>): Tree
    requires |weights| == |v|
  {
    if v == [] then TEmptyArray([]) else TArray([], RecordElements(v, weights))
  }

  // --- the text ---

  lemma {:induction false} CleanRenders(s: seq<byte>, acc: seq<byte>)
    requires Clean(s)
    ensures RenderChars(CharsFor(s), acc) == acc + s + [QUOTE]
    decreases |s|
  {
    CharsForSplits(s);
    if s == [] {
      assert acc + s == acc;
    } else {
      assert CharFor(s[0]) == Raw(s[0]);
      hide CharFor, CharsFor;
      CleanRenders(s[1..], acc + [s[0]]);
      assert acc + [s[0]] + s[1..] == acc + s;
    }
  }

  lemma IntRenders(i: int, acc: seq<byte>)
    ensures acc + NumeralText(NumeralFor(i)) == acc + IntText(i)
  {}

  /** A member is its key, its value, and what follows. */
  lemma MemberRenders(key: seq<byte>, value: Tree, after: Gap, acc: seq<byte>)
    requires Clean(key)
    ensures RenderMember(MemberOf(key, value, after), acc) == Render(value, Label(acc, key)) + after
  {
    hide RenderChars, CharsFor, Render;
    CleanRenders(key, acc + [QUOTE]);
    var s := RenderString(CharsFor(key), acc);
    assert s + [] + [COLON] + [] == s + [COLON];
  }

  lemma StringRenders(s: seq<byte>, acc: seq<byte>)
    requires Clean(s)
    ensures Render(TString(CharsFor(s)), acc) == Quoted(acc, s)
  {
    hide RenderChars, CharsFor;
    CleanRenders(s, acc + [QUOTE]);
  }

  /** A string member and a comma, then the rest. */
  lemma StringMember(key: seq<byte>, s: seq<byte>, rest: Members, acc: seq<byte>)
    requires Clean(key) && Clean(s)
    ensures RenderMembers(MoreMembers(MemberOf(key, TString(CharsFor(s)), []), [], rest), acc) ==
      RenderMembers(rest, Quoted(Label(acc, key), s) + [COMMA])
  {
    MemberRenders(key, TString(CharsFor(s)), [], acc);
    StringRenders(s, Label(acc, key));
    var written := Quoted(Label(acc, key), s);
    assert written + [] == written && written + [COMMA] + [] == written + [COMMA];
  }

  lemma IntMember(key: seq<byte>, i: int, rest: Members, acc: seq<byte>)
    requires Clean(key)
    ensures RenderMembers(MoreMembers(MemberOf(key, TNumber(NumeralFor(i)), []), [], rest), acc) ==
      RenderMembers(rest, Label(acc, key) + IntText(i) + [COMMA])
  {
    MemberRenders(key, TNumber(NumeralFor(i)), [], acc);
    IntRenders(i, Label(acc, key));
    var written := Label(acc, key) + IntText(i);
    assert written + [] == written && written + [COMMA] + [] == written + [COMMA];
  }

  lemma LastIntMember(key: seq<byte>, i: int, after: Gap, acc: seq<byte>)
    requires Clean(key)
    ensures RenderMembers(LastMember(MemberOf(key, TNumber(NumeralFor(i)), after)), acc) ==
      Label(acc, key) + IntText(i) + after + [RBRACE]
  {
    MemberRenders(key, TNumber(NumeralFor(i)), after, acc);
    IntRenders(i, Label(acc, key));
  }

  lemma RecordOpens(r: Registry, weight: int, acc: seq<byte>)
    ensures Render(RecordTree(r, weight), acc) ==
      RenderMembers(MoreMembers(MemberOf(NAME, TString(CharsFor(r.name)), []), [], HostMember(r.host, r.port, weight)),
                    acc + [LBRACE])
  {
    hide HostMember, MemberOf, RenderMembers, CharsFor;
    assert acc + [LBRACE] + [] == acc + [LBRACE];
  }

  lemma RecordRenders(r: Registry, weight: int, acc: seq<byte>)
    requires Clean(r.name) && Clean(r.host)
    ensures Render(RecordTree(r, weight), acc) == RecordTo(acc, r, weight)
  {
    assert Clean(NAME) && Clean(HOST) && Clean(PORT) && Clean(WEIGHT);
    RecordOpens(r, weight, acc);
    hide Render, RecordTree, Label, Quoted, MemberOf, RenderMembers, CharsFor, NumeralFor, IntText, Clean;
    StringMember(NAME, r.name, HostMember(r.host, r.port, weight), acc + [LBRACE]);
    var named := Quoted(Label(acc + [LBRACE], NAME), r.name);
    StringMember(HOST, r.host, PortMember(r.port, weight), named + [COMMA]);
    var hosted := Quoted(Label(named + [COMMA], HOST), r.host);
    IntMember(PORT, r.port, WeightMember(weight), hosted + [COMMA]);
    LastIntMember(WEIGHT, weight, [SPACE], Label(hosted + [COMMA], PORT) + IntText(r.port) + [COMMA]);
  }

  lemma {:induction false} ElementsRender(v: seq<Registry>, weights: seq<int>, acc: seq<byte>, first: bool)
    requires |weights| == |v| > 0 && forall i | 0 <= i < |v| :: Clean(v[i].name) && Clean(v[i].host)
    ensures RecordsTo(acc, v, weights, first) ==
      RenderElements(RecordElements(v, weights), if first then acc else acc + [COMMA] + [LF])
    decreases |v|
  {
    hide RecordTree, RecordTo, Clean;
    var led := if first then acc else acc + [COMMA] + [LF];
    RecordRenders(v[0], weights[0], led);
    var written := RecordTo(led, v[0], weights[0]);
    assert written + [] == written;
    if |v| > 1 {
      ElementsRender(v[1..], weights[1..], written, false);
    } else {
      assert v[1..] == [] && weights[1..] == [];
    }
  }

  /** The text that is saved is the text of a syntax tree. */
  lemma RecordsRender(v: seq<Registry>, weights: seq<int>)
    requires |weights| == |v| && forall i | 0 <= i < |v| :: Clean(v[i].name) && Clean(v[i].host)
    ensures RecordsTo([LBRACKET], v, weights, true) == TreeText(RecordsTree(v, weights))
  {
    hide RecordElements;
    Renders(RecordsTree(v, weights), []);
    assert [] + TreeText(RecordsTree(v, weights)) == TreeText(RecordsTree(v, weights));
    assert [] + [LBRACKET] + [] == [LBRACKET];
    if v != [] { ElementsRender(v, weights, [LBRACKET], true); }
  }
}
