/** Which strings a reader can find in the text of saved records. A name that is not clean moves the quotes
    that end it, so the text is cut otherwise; but no string can then come out as long as such a name. */
module RecordTokens {
  import opened Bytes
  import opened Decimal
  import opened Grammar
  import opened Places
  import opened Registries
  import opened RegistryTexts
  import opened FieldTexts
  import opened RecordPieces

  /** What can follow a value inside an object. */
  predicate Follows(c: byte) { IsWs(c) || c == COMMA || c == RBRACE }

  predicate Stands(t: seq<byte>, p: nat, s: seq<byte>) { p + |s| <= |t| && t[p..p + |s|] == s }

  lemma StandsAt(t: seq<byte>, p: nat, s: seq<byte>, k: nat)
    requires Stands(t, p, s) && k < |s|
    ensures Peek(t, p + k) == s[k]
  {
    assert t[p..p + |s|][k] == t[p + k];
  }

  /** Text without quotes and backslashes. */
  predicate Literal(s: seq<byte>) { forall i | 0 <= i < |s| :: s[i] != QUOTE && s[i] != BACKSLASH }

  // --- one string ---

  /** A string ends at a quote that is not escaped, and cannot run into the end of the text. */
  lemma StopsAt(t: seq<byte>, p: nat, cs: seq<Char>, acc: seq<byte>)
    requires CharsAt(t, p, cs)
    ensures p < |t| && (Peek(t, p) == QUOTE <==> cs == [])
    ensures cs == [] ==> CharsBytes(cs, acc) == acc && CharsEnd(p, cs) == p + 1
  {}

  lemma TakesChar(t: seq<byte>, p: nat, cs: seq<Char>, acc: seq<byte>)
    requires CharsAt(t, p, cs) && cs != []
    ensures CharAt(t, p, cs[0]) && CharsAt(t, CharEnd(p, cs[0]), cs[1..])
    ensures CharsBytes(cs, acc) == CharsBytes(cs[1..], acc + CharBytes(cs[0]))
    ensures CharsEnd(p, cs) == CharsEnd(CharEnd(p, cs[0]), cs[1..])
    ensures cs[0].Short? ==> CharEnd(p, cs[0]) == p + 2
  {
    hide CharAt, CharBytes;
  }

  /** A byte that needs no escape is taken for itself, if it is no control character. */
  lemma TakesByte(t: seq<byte>, p: nat, cs: seq<Char>, acc: seq<byte>)
    requires CharsAt(t, p, cs) && Peek(t, p) != QUOTE && Peek(t, p) != BACKSLASH
    ensures Peek(t, p) >= 0x20 && cs != [] && CharsAt(t, p + 1, cs[1..])
    ensures CharsBytes(cs, acc) == CharsBytes(cs[1..], acc + [Peek(t, p)])
    ensures CharsEnd(p, cs) == CharsEnd(p + 1, cs[1..])
  {
    StopsAt(t, p, cs, acc);
    TakesChar(t, p, cs, acc);
    hide CharsAt, CharsBytes, CharsEnd;
    assert cs[0] == Raw(Peek(t, p));
  }

  /** Literal text in a string is clean, and is not the end of the text. */
  lemma {:induction false} TakesLiteral(t: seq<byte>, p: nat, s: seq<byte>, cs: seq<Char>)
    requires Stands(t, p, s) && Literal(s) && CharsAt(t, p, cs)
    ensures Clean(s) && p + |s| < |t|
    decreases |s|
  {
    hide CharsAt;
    if s == [] {
      StopsAt(t, p, cs, []);
    } else {
      StandsAt(t, p, s, 0);
      TakesByte(t, p, cs, []);
      assert Stands(t, p + 1, s[1..]);
      TakesLiteral(t, p + 1, s[1..], cs[1..]);
      assert [s[0]] + s[1..] == s;
    }
  }

  /** A whole string of literal text. */
  lemma {:induction false} ReadsLiteral(t: seq<byte>, p: nat, s: seq<byte>, cs: seq<Char>, acc: seq<byte>)
    requires Stands(t, p, s) && Literal(s) && CharsAt(t, p, cs) && Peek(t, p + |s|) == QUOTE
    ensures CharsBytes(cs, acc) == acc + s && CharsEnd(p, cs) == p + |s| + 1
    decreases |s|
  {
    hide CharsAt, CharsBytes, CharsEnd;
    if s == [] {
      StopsAt(t, p, cs, acc);
      assert acc + s == acc;
    } else {
      StandsAt(t, p, s, 0);
      TakesByte(t, p, cs, acc);
      assert Stands(t, p + 1, s[1..]);
      ReadsLiteral(t, p + 1, s[1..], cs[1..], acc + [s[0]]);
      assert acc + [s[0]] + s[1..] == acc + s;
    }
  }

  /** A string that starts at the k-th byte of s, s standing at p before a quote, and has r bytes so far: it
      ends within s and its quote, shorter than what was read unless that is clean; or it escapes the quote
      behind s, and `rest` is what follows. */
  lemma {:induction false} EndsOrCrosses(t: seq<byte>, p: nat, s: seq<byte>, k: nat, cs: seq<Char>, acc: seq<byte>)
      returns (crosses: bool, rest: seq<Char>)
    requires Stands(t, p, s + [QUOTE]) && k <= |s| && CharsAt(t, p + k, cs)
    ensures crosses ==> CharsAt(t, p + |s| + 1, rest) && CharsEnd(p + k, cs) == CharsEnd(p + |s| + 1, rest)
    ensures !crosses ==>
      var (n, r) := (CharsEnd(p + k, cs) - p - 1, |CharsBytes(cs, acc)| - |acc|);
      && k <= n <= |s| && r <= n - k
      && (r == n - k ==> CharsBytes(cs, acc) == acc + s[k..n] && Clean(s[k..n]))
    decreases |cs|
  {
    hide CharsAt, CharsBytes, CharsEnd, CharAt, CharEnd, CharBytes, Clean, Stands;
    crosses, rest := false, cs;
    StandsAt(t, p, s + [QUOTE], k);
    StopsAt(t, p + k, cs, acc);
    if cs == [] {
      NoBytes(s, k, acc);
    } else {
      var c := cs[0];
      TakesChar(t, p + k, cs, acc);
      if c.Short? && c.e == QUOTE && k + 1 == |s| {
        crosses, rest := true, cs[1..];
      } else {
        StaysWithin(t, p, s, k, c);
        var m := CharEnd(p + k, c) - p;
        crosses, rest := EndsOrCrosses(t, p, s, m, cs[1..], acc + CharBytes(c));
        var n := CharsEnd(p + k, cs) - p - 1;
        if !crosses && c.Raw? { AddsByte(s, k, n, acc); }
      }
    }
  }

  lemma NoBytes(s: seq<byte>, k: nat, acc: seq<byte>)
    requires k <= |s|
    ensures acc + s[k..k] == acc && Clean(s[k..k])
  {}

  lemma AddsByte(s: seq<byte>, k: nat, n: nat, acc: seq<byte>)
    requires k < n <= |s|
    ensures acc + [s[k]] + s[k + 1..n] == acc + s[k..n]
    ensures s[k] >= 0x20 && s[k] != QUOTE && s[k] != BACKSLASH && Clean(s[k + 1..n]) ==> Clean(s[k..n])
  {
    assert s[k..n] == [s[k]] + s[k + 1..n];
  }

  /** A character that does not escape the quote behind s lies within s, and gives fewer bytes than it
      takes unless it stands for itself. */
  lemma StaysWithin(t: seq<byte>, p: nat, s: seq<byte>, k: nat, c: Char)
    requires Stands(t, p, s + [QUOTE]) && k < |s| && CharAt(t, p + k, c)
    requires !(c.Short? && c.e == QUOTE && k + 1 == |s|)
    ensures k < CharEnd(p + k, c) - p <= |s|
    ensures |CharBytes(c)| <= CharEnd(p + k, c) - (p + k)
    ensures |CharBytes(c)| == CharEnd(p + k, c) - (p + k) ==> c.Raw? && c.b == s[k] && CharBytes(c) == [s[k]]
  {
    StandsAt(t, p, s + [QUOTE], k);
    StandsAt(t, p, s + [QUOTE], |s|);
    if !c.Raw? && !(c.Short? && c.e == QUOTE) && CharEnd(p + k, c) - p > |s| {
      EscapeHasNoQuote(t, p + k, c, |s| - k);
      assert false;
    }
  }

  /** A string found in s is shorter than s, unless it is all of s and s is clean. */
  predicate Within(d: seq<byte>, s: seq<byte>) {
    && |d| <= |s| && (|d| == |s| ==> d == s && Clean(s))
    && (Clean(s) ==> d == s)
  }

  /** A value found in a name or host: if it took the quote behind it for its own, it would end before a
      letter. */
  lemma ValueInSlot(t: seq<byte>, p: nat, s: seq<byte>, k: nat, cs: seq<Char>)
    requires Stands(t, p, s + [QUOTE]) && k <= |s| && (k > 0 ==> s[k - 1] == QUOTE) && CharsAt(t, p + k, cs)
    requires Peek(t, p + |s| + 1) == COMMA && Peek(t, p + |s| + 2) == QUOTE && !Follows(Peek(t, p + |s| + 3))
    requires Follows(Peek(t, CharsEnd(p + k, cs)))
    ensures Within(CharsBytes(cs, []), s)
  {
    hide CharsAt, CharsBytes, CharsEnd, Follows;
    var crosses, rest := EndsOrCrosses(t, p, s, k, cs, []);
    if crosses {
      assert t[p + |s| + 1..p + |s| + 2] == [COMMA];
      ReadsLiteral(t, p + |s| + 1, [COMMA], rest, []);
      assert false;
    }
    NotShorter(s, k, CharsEnd(p + k, cs) - p - 1, CharsBytes(cs, []));
    if Clean(s) {
      assert t[p..p + |s|] == (s + [QUOTE])[..|s|] == s;
      StandsAt(t, p, s + [QUOTE], |s|);
      ReadsLiteral(t, p, s, cs, []);
      assert [] + s == s;
    }
  }

  lemma NotShorter(s: seq<byte>, k: nat, n: nat, d: seq<byte>)
    requires k <= n <= |s| && |d| <= n - k && (|d| == n - k ==> d == [] + s[k..n] && Clean(s[k..n]))
    ensures |d| <= |s| && (|d| == |s| ==> d == s && Clean(s))
  {
    if |d| == |s| { assert s[k..n] == s && [] + s == s; }
  }

  // --- where the pieces stand ---

  lemma {:induction false} PiecesPrefix(v: seq<Registry>, weights: seq<int>, j: nat)
    requires |weights| == |v| && j <= 12 * |v|
    ensures Through(v, weights, j) <= Through(v, weights, 12 * |v|)
    ensures j < 12 * |v| ==>
      Upto(v, weights, j + 1) == Through(v, weights, j) + [QUOTE] <= Through(v, weights, 12 * |v|)
    decreases 12 * |v| - j
  {
    hide Piece;
    if j < 12 * |v| {
      UptoNext(v, weights, j);
      hide Upto;
      PiecesPrefix(v, weights, j + 1);
    }
  }

  /** The j-th piece stands behind the pieces before it, and a quote behind it. */
  lemma PiecePlace(v: seq<Registry>, weights: seq<int>, t: seq<byte>, j: nat)
    requires |weights| == |v| && j <= 12 * |v| && t == Through(v, weights, 12 * |v|)
    ensures var (p, s) := (|Upto(v, weights, j)|, Piece(v, weights, j));
      && Stands(t, p, s)
      && (if j == 12 * |v| then p + |s| == |t|
          else Stands(t, p, s + [QUOTE]) && Peek(t, p + |s|) == QUOTE && |Upto(v, weights, j + 1)| == p + |s| + 1)
  {
    hide Upto, Piece;
    PiecesPrefix(v, weights, j);
    var (before, s) := (Upto(v, weights, j), Piece(v, weights, j));
    assert t[|before|..|before| + |s|] == (before + s)[|before|..] == s;
    if j < 12 * |v| { assert t[|before|..|before| + |s| + 1] == (before + s + [QUOTE])[|before|..] == s + [QUOTE]; }
  }

  /** Every byte stands in a piece, or is the quote behind one. */
  lemma {:induction false} InPiece(v: seq<Registry>, weights: seq<int>, j: nat, a: nat) returns (i: nat)
    requires |weights| == |v| && j <= 12 * |v| && a < |Through(v, weights, j)|
    ensures i <= j && |Upto(v, weights, i)| <= a <= |Through(v, weights, i)|
    ensures a == |Through(v, weights, i)| ==> i < j
    decreases j
  {
    hide Piece;
    i := j;
    if a < |Upto(v, weights, j)| {
      UptoNext(v, weights, j - 1);
      if a == |Through(v, weights, j - 1)| {
        i := j - 1;
      } else {
        i := InPiece(v, weights, j - 1, a);
      }
    }
  }

  // --- one value ---

  predicate IsSlot(j: nat) { j % 12 == 3 || j % 12 == 7 }

  lemma IntIsLiteral(i: int)
    ensures Literal(IntText(i))
  {
    ValDigits(if i < 0 then -i else i);
  }

  lemma JoinsLiteral(a: seq<byte>, b: seq<byte>)
    requires Literal(a) && Literal(b)
    ensures Literal(a + b)
  {}

  /** All but names and hosts is literal. A piece with a weight in it is not clean or ends the text. */
  lemma FixedPiece(v: seq<Registry>, weights: seq<int>, j: nat)
    requires |weights| == |v| && 0 < j <= 12 * |v| && !IsSlot(j)
    ensures Literal(Piece(v, weights, j)) && (Clean(Piece(v, weights, j)) && j % 12 == 0 ==> j == 12 * |v|)
  {
    if j % 12 == 0 {
      WeighedIsLiteral(weights[j / 12 - 1], j == 12 * |v|);
    } else {
      var r := v[j / 12];
      IntIsLiteral(r.port);
      JoinsLiteral([COLON], IntText(r.port));
      JoinsLiteral([COLON] + IntText(r.port), [COMMA]);
    }
  }

  lemma WeighedIsLiteral(weight: int, last: bool)
    ensures Literal(Weighed(weight, last)) && (Clean(Weighed(weight, last)) ==> last)
  {
    hide Literal, IntText;
    var (c, d) := ([COLON] + IntText(weight), [COLON] + IntText(weight) + [SPACE] + [RBRACE]);
    IntIsLiteral(weight);
    SignsAreLiteral(last);
    JoinsLiteral([COLON], IntText(weight));
    JoinsLiteral(c, [SPACE]);
    JoinsLiteral(c + [SPACE], [RBRACE]);
    JoinsLiteral(d, Closing(last));
    if !last { assert (d + Closing(last))[|d| + 1] == LF; }
  }

  lemma SignsAreLiteral(last: bool)
    ensures Literal([COLON]) && Literal([SPACE]) && Literal([RBRACE]) && Literal(Closing(last))
  {}

  /** What a piece begins with; a name or a host may begin with anything. */
  lemma Begins(v: seq<Registry>, weights: seq<int>, j: nat)
    requires |weights| == |v| && 0 < j <= 12 * |v| && !IsSlot(j)
    ensures Piece(v, weights, j) != [] && !(Follows(Piece(v, weights, j)[0]) && j % 12 != 4 && j % 12 != 8)
    ensures j % 12 == 2 || j % 12 == 6 ==> Piece(v, weights, j) == [COLON]
    ensures j % 12 == 4 || j % 12 == 8 ==> Piece(v, weights, j) == [COMMA]
  {
    hide IntText;
  }

  /** A value that is not found in a name or a host is the colon before one. */
  lemma ValueInFixed(v: seq<Registry>, weights: seq<int>, t: seq<byte>, j: nat, cs: seq<Char>)
    requires |weights| == |v| && 0 < j <= 12 * |v| && !IsSlot(j) && t == Through(v, weights, 12 * |v|)
    requires CharsAt(t, |Upto(v, weights, j)|, cs) && Follows(Peek(t, CharsEnd(|Upto(v, weights, j)|, cs)))
    ensures CharsBytes(cs, []) == [COLON]
  {
    hide Through, Upto, Piece, Literal, Clean, CharsAt, CharsBytes, CharsEnd, Follows, Stands;
    var (p, s) := (|Upto(v, weights, j)|, Piece(v, weights, j));
    PiecePlace(v, weights, t, j);
    FixedPiece(v, weights, j);
    TakesLiteral(t, p, s, cs);
    ReadsLiteral(t, p, s, cs, []);
    assert [] + s == s;
    Begins(v, weights, j);
    if j % 12 != 2 && j % 12 != 6 {
      PiecePlace(v, weights, t, j + 1);
      Begins(v, weights, j + 1);
      StandsAt(t, |Upto(v, weights, j + 1)|, Piece(v, weights, j + 1), 0);
      assert false;
    }
  }

  /** Behind a name or a host come a comma and a key. */
  lemma BehindSlot(v: seq<Registry>, weights: seq<int>, t: seq<byte>, j: nat)
    requires |weights| == |v| && j <= 12 * |v| && IsSlot(j) && t == Through(v, weights, 12 * |v|)
    ensures var (p, s) := (|Upto(v, weights, j)|, Piece(v, weights, j));
      && Stands(t, p, s + [QUOTE])
      && Peek(t, p + |s| + 1) == COMMA && Peek(t, p + |s| + 2) == QUOTE && !Follows(Peek(t, p + |s| + 3))
  {
    hide Through, Upto, Piece, Follows, Stands;
    assert j % 12 + 1 == (j + 1) % 12 && j % 12 + 2 == (j + 2) % 12;
    PiecePlace(v, weights, t, j);
    PiecePlace(v, weights, t, j + 1);
    PiecePlace(v, weights, t, j + 2);
    Begins(v, weights, j + 1);
    Begins(v, weights, j + 2);
    StandsAt(t, |Upto(v, weights, j + 1)|, [COMMA], 0);
    StandsAt(t, |Upto(v, weights, j + 2)|, Piece(v, weights, j + 2), 0);
  }

  /** A string stands at a in t as a value of an object. */
  predicate ValueString(t: seq<byte>, a: nat, cs: seq<Char>) {
    StringAt(t, a, cs) && Follows(Peek(t, StringEnd(a, cs)))
  }

  /** Every string value is a colon, or is found in a name or a host. */
  lemma ValueIsWithin(v: seq<Registry>, weights: seq<int>, t: seq<byte>, a: nat, cs: seq<Char>) returns (j: nat)
    requires |weights| == |v| > 0 && t == Through(v, weights, 12 * |v|) && ValueString(t, a, cs)
    ensures CharsBytes(cs, []) == [COLON] ||
      (j <= 12 * |v| && IsSlot(j) && Within(CharsBytes(cs, []), Piece(v, weights, j)))
  {
    hide Through, Upto, Piece, CharsAt, CharsBytes, CharsEnd, Follows, Stands, Within, Literal;
    j := InPiece(v, weights, 12 * |v|, a);
    PiecePlace(v, weights, t, j);
    var (p, s) := (|Upto(v, weights, j)|, Piece(v, weights, j));
    ThroughLength(v, weights, j);
    if a < p + |s| {
      StandsAt(t, p, s, a - p);
      HoldsQuote(v, weights, j, a - p);
      BehindSlot(v, weights, t, j);
      ValueInSlot(t, p, s, a + 1 - p, cs);
    } else {
      j := j + 1;
      if IsSlot(j) {
        BehindSlot(v, weights, t, j);
        ValueInSlot(t, p + |s| + 1, Piece(v, weights, j), 0, cs);
      } else {
        ValueInFixed(v, weights, t, j, cs);
      }
    }
  }

  lemma ThroughLength(v: seq<Registry>, weights: seq<int>, j: nat)
    requires |weights| == |v| && j <= 12 * |v|
    ensures |Through(v, weights, j)| == |Upto(v, weights, j)| + |Piece(v, weights, j)|
  {
    hide Upto, Piece;
  }

  /** Only names and hosts can have a quote in them. */
  lemma HoldsQuote(v: seq<Registry>, weights: seq<int>, j: nat, k: nat)
    requires |weights| == |v| && j <= 12 * |v| && k < |Piece(v, weights, j)| && Piece(v, weights, j)[k] == QUOTE
    ensures IsSlot(j)
  {
    if j > 0 && !IsSlot(j) {
      hide Piece;
      FixedPiece(v, weights, j);
    }
  }
}
