/** The text of a syntax tree, written out after the bytes in acc as a writer does. */
module Rendering {
  import opened Bytes
  import opened Grammar

  function RenderChars(cs: seq<Char>, acc: seq<byte>): seq<byte>
    decreases |cs|
  {
    if cs == [] then acc + [QUOTE] else RenderChars(cs[1..], acc + CharText(cs[0]))
  }

  function RenderString(cs: seq<Char>, acc: seq<byte>): seq<byte> { RenderChars(cs, acc + [QUOTE]) }

  function Render(tree: Tree, acc: seq<byte>): seq<byte>
    decreases tree
  {
    match tree
    case TNull => acc + NULL_WORD
    case TTrue => acc + TRUE_WORD
    case TFalse => acc + FALSE_WORD
    case TString(cs) => RenderString(cs, acc)
    case TNumber(n) => acc + NumeralText(n)
    case TEmptyObject(gap) => acc + [LBRACE] + gap + [RBRACE]
    case TObject(gap, ms) => RenderMembers(ms, acc + [LBRACE] + gap)
    case TEmptyArray(gap) => acc + [LBRACKET] + gap + [RBRACKET]
    case TArray(gap, es) => RenderElements(es, acc + [LBRACKET] + gap)
  }

  function RenderMember(m: Member, acc: seq<byte>): seq<byte>
    decreases m
  {
    Render(m.value, RenderString(m.name, acc) + m.gap1 + [COLON] + m.gap2) + m.after
  }

  function RenderMembers(ms: Members, acc: seq<byte>): seq<byte>
    decreases ms
  {
    match ms
    case LastMember(m) => RenderMember(m, acc) + [RBRACE]
    case MoreMembers(m, gap, rest) => RenderMembers(rest, RenderMember(m, acc) + [COMMA] + gap)
  }

  function RenderElements(es: Elements, acc: seq<byte>): seq<byte>
    decreases es
  {
    match es
    case LastElement(v, after) => Render(v, acc) + after + [RBRACKET]
    case MoreElements(v, after, gap, rest) => RenderElements(rest, Render(v, acc) + after + [COMMA] + gap)
  }

  // --- rendering appends the text of the tree ---

  lemma Regroup(a: seq<byte>, b: seq<byte>, c: seq<byte>)
    ensures a + (b + c) == a + b + c
  {}

  lemma {:induction false} RendersChars(cs: seq<Char>, acc: seq<byte>)
    ensures RenderChars(cs, acc) == acc + (CharsText(cs) + [QUOTE])
    decreases |cs|
  {
    hide CharText;
    if cs == [] {
      assert CharsText(cs) + [QUOTE] == [QUOTE];
    } else {
      RendersChars(cs[1..], acc + CharText(cs[0]));
      Regroup(CharText(cs[0]), CharsText(cs[1..]), [QUOTE]);
      Regroup(acc, CharText(cs[0]), CharsText(cs[1..]) + [QUOTE]);
    }
  }

  lemma RendersString(cs: seq<Char>, acc: seq<byte>)
    ensures RenderString(cs, acc) == acc + StringText(cs)
  {
    RendersChars(cs, acc + [QUOTE]);
    Regroup(acc, [QUOTE], CharsText(cs) + [QUOTE]);
  }

  lemma {:induction false} Renders(tree: Tree, acc: seq<byte>)
    ensures Render(tree, acc) == acc + TreeText(tree)
    decreases tree
  {
    match tree {
      case TString(cs) => RendersString(cs, acc);
      case TEmptyObject(gap) => RegroupOpen(acc, LBRACE, gap, [RBRACE]);
      case TObject(gap, ms) =>
        RendersMembers(ms, acc + [LBRACE] + gap);
        RegroupOpen(acc, LBRACE, gap, MembersText(ms));
      case TEmptyArray(gap) => RegroupOpen(acc, LBRACKET, gap, [RBRACKET]);
      case TArray(gap, es) =>
        RendersElements(es, acc + [LBRACKET] + gap);
        RegroupOpen(acc, LBRACKET, gap, ElementsText(es));
      case _ =>
    }
  }

  lemma RegroupOpen(acc: seq<byte>, c: byte, gap: seq<byte>, rest: seq<byte>)
    ensures acc + ([c] + (gap + rest)) == acc + [c] + gap + rest
  {}

  lemma {:induction false} RendersMember(m: Member, acc: seq<byte>)
    ensures RenderMember(m, acc) == acc + MemberText(m)
    decreases m
  {
    hide StringText, RenderString, TreeText;
    var (name, value) := (StringText(m.name), TreeText(m.value));
    RendersString(m.name, acc);
    Renders(m.value, acc + name + m.gap1 + [COLON] + m.gap2);
    Regroup(acc, name, m.gap1 + ([COLON] + (m.gap2 + (value + m.after))));
    Regroup(acc + name, m.gap1, [COLON] + (m.gap2 + (value + m.after)));
    RegroupOpen(acc + name + m.gap1, COLON, m.gap2, value + m.after);
    Regroup(acc + name + m.gap1 + [COLON] + m.gap2, value, m.after);
  }

  lemma {:induction false} RendersMembers(ms: Members, acc: seq<byte>)
    ensures RenderMembers(ms, acc) == acc + MembersText(ms)
    decreases ms
  {
    hide MemberText, RenderMember;
    RendersMember(ms.m, acc);
    match ms {
      case LastMember(m) => Regroup(acc, MemberText(m), [RBRACE]);
      case MoreMembers(m, gap, rest) =>
        RendersMembers(rest, acc + MemberText(m) + [COMMA] + gap);
        Regroup(acc, MemberText(m), [COMMA] + (gap + MembersText(rest)));
        RegroupOpen(acc + MemberText(m), COMMA, gap, MembersText(rest));
    }
  }

  lemma {:induction false} RendersElements(es: Elements, acc: seq<byte>)
    ensures RenderElements(es, acc) == acc + ElementsText(es)
    decreases es
  {
    hide TreeText, Render;
    Renders(es.v, acc);
    var value := TreeText(es.v);
    match es {
      case LastElement(_, after) =>
        Regroup(acc, value, after + [RBRACKET]);
        Regroup(acc + value, after, [RBRACKET]);
      case MoreElements(_, after, gap, rest) =>
        RendersElements(rest, acc + value + after + [COMMA] + gap);
        Regroup(acc, value, after + ([COMMA] + (gap + ElementsText(rest))));
        Regroup(acc + value, after, [COMMA] + (gap + ElementsText(rest)));
        RegroupOpen(acc + value + after, COMMA, gap, ElementsText(rest));
    }
  }
}
