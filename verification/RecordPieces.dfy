/** The text of saved records, cut at the quotes that are written around names, hosts and keys. */
module RecordPieces {
  import opened Bytes
  import opened Registries

  /** What stands between the j-th and the next of these quotes; twelve pieces for each record. */
  function Piece(v: seq<Registry>, weights: seq<int>, j: nat): seq<byte>
    requires |weights| == |v| && j <= 12 * |v|
  {
    if j == 0 then [LBRACKET] + [LBRACE]
    else if j % 12 == 0 then Weighed(weights[j / 12 - 1], j == 12 * |v|)
    else RecordPiece(v[j / 12], j % 12)
  }

  function RecordPiece(r: Registry, m: nat): seq<byte> {
    match m
    case 1 => NAME
    case 3 => r.name
    case 5 => HOST
    case 7 => r.host
    case 9 => PORT
    case 10 => [COLON] + IntText(r.port) + [COMMA]
    case 11 => WEIGHT
    case _ => if m == 4 || m == 8 then [COMMA] else [COLON]
  }

  /** A weight, and what stands up to the next name or to the end. */
  function Weighed(weight: int, last: bool): seq<byte> {
    [COLON] + IntText(weight) + [SPACE] + [RBRACE] + Closing(last)
  }

  function Closing(last: bool): seq<byte> { if last then [RBRACKET] else [COMMA] + [LF] + [LBRACE] }

  /** The pieces before the j-th, each with its quote. */
  function Upto(v: seq<Registry>, weights: seq<int>, j: nat): seq<byte>
    requires |weights| == |v| && j <= 12 * |v|
  {
    if j == 0 then [] else Upto(v, weights, j - 1) + Piece(v, weights, j - 1) + [QUOTE]
  }

  function Through(v: seq<Registry>, weights: seq<int>, j: nat): seq<byte>
    requires |weights| == |v| && j <= 12 * |v|
  {
    Upto(v, weights, j) + Piece(v, weights, j)
  }

  lemma Fixed(r: Registry)
    ensures RecordPiece(r, 1) == NAME && RecordPiece(r, 5) == HOST && RecordPiece(r, 9) == PORT
    ensures RecordPiece(r, 11) == WEIGHT && RecordPiece(r, 10) == [COLON] + IntText(r.port) + [COMMA]
    ensures RecordPiece(r, 3) == r.name && RecordPiece(r, 7) == r.host
    ensures RecordPiece(r, 2) == RecordPiece(r, 6) == [COLON] && RecordPiece(r, 4) == RecordPiece(r, 8) == [COMMA]
  {}

  lemma UptoNext(v: seq<Registry>, weights: seq<int>, j: nat)
    requires |weights| == |v| && j < 12 * |v|
    ensures Upto(v, weights, j + 1) == Upto(v, weights, j) + Piece(v, weights, j) + [QUOTE]
  {
    hide Piece;
  }

  lemma Twelfth(i: nat, m: nat)
    requires m < 12
    ensures (12 * i + m) % 12 == m && (12 * i + m) / 12 == i
  {}

  lemma PieceOf(v: seq<Registry>, weights: seq<int>, i: nat, m: nat)
    requires |weights| == |v| && i < |v| && 0 < m < 12
    ensures Piece(v, weights, 12 * i + m) == RecordPiece(v[i], m)
  {
    hide RecordPiece, Weighed;
    Twelfth(i, m);
  }

  lemma UptoIn(v: seq<Registry>, weights: seq<int>, i: nat, m: nat)
    requires |weights| == |v| && i < |v| && 0 < m < 12
    ensures Upto(v, weights, 12 * i + (m + 1)) == Upto(v, weights, 12 * i + m) + RecordPiece(v[i], m) + [QUOTE]
  {
    UptoNext(v, weights, 12 * i + m);
    PieceOf(v, weights, i, m);
    hide Upto, Piece, RecordPiece;
  }

  /** A key and a string, or a key and a number, are their pieces. */
  lemma StringIsPieces(v: seq<Registry>, weights: seq<int>, i: nat, m: nat, acc: seq<byte>)
    requires |weights| == |v| && i < |v| && (m == 1 || m == 5)
    requires Upto(v, weights, 12 * i + m) == acc + [QUOTE]
    ensures Upto(v, weights, 12 * i + (m + 3)) ==
      Quoted(Label(acc, RecordPiece(v[i], m)), RecordPiece(v[i], m + 2))
  {
    hide Upto, Piece, RecordPiece;
    Fixed(v[i]);
    UptoIn(v, weights, i, m);
    UptoIn(v, weights, i, m + 1);
    UptoIn(v, weights, i, m + 2);
  }

  lemma PortIsPieces(v: seq<Registry>, weights: seq<int>, i: nat, acc: seq<byte>)
    requires |weights| == |v| && i < |v| && Upto(v, weights, 12 * i + 9) == acc + [QUOTE]
    ensures Upto(v, weights, 12 * i + 11) == Label(acc, PORT) + IntText(v[i].port) + [COMMA] + [QUOTE]
  {
    hide Upto, Piece, RecordPiece, IntText;
    Fixed(v[i]);
    UptoIn(v, weights, i, 9);
    UptoIn(v, weights, i, 10);
    var (x, y) := (acc + [QUOTE] + PORT + [QUOTE], IntText(v[i].port));
    assert x + ([COLON] + y + [COMMA]) == x + [COLON] + y + [COMMA];
  }

  lemma WeightIsPieces(v: seq<Registry>, weights: seq<int>, i: nat, acc: seq<byte>)
    requires |weights| == |v| && i < |v| && Upto(v, weights, 12 * i + 11) == acc + [QUOTE]
    ensures Upto(v, weights, 12 * (i + 1)) == acc + [QUOTE] + WEIGHT + [QUOTE]
  {
    hide Upto, RecordPiece;
    Fixed(v[i]);
    UptoIn(v, weights, i, 11);
  }

  lemma WeighedAfter(acc: seq<byte>, weight: int, last: bool)
    ensures acc + [QUOTE] + WEIGHT + [QUOTE] + Weighed(weight, last) ==
      Label(acc, WEIGHT) + IntText(weight) + [SPACE] + [RBRACE] + Closing(last)
  {
    hide IntText, Closing;
    var x := acc + [QUOTE] + WEIGHT + [QUOTE];
    assert forall y: seq<byte>, z: seq<byte> ::
      x + ([COLON] + y + [SPACE] + [RBRACE] + z) == x + [COLON] + y + [SPACE] + [RBRACE] + z;
  }

  lemma CommaPiece(v: seq<Registry>, weights: seq<int>, i: nat, m: nat)
    requires |weights| == |v| && i < |v| && (m == 4 || m == 8)
    ensures Upto(v, weights, 12 * i + (m + 1)) == Upto(v, weights, 12 * i + m) + [COMMA] + [QUOTE]
  {
    hide Upto, Piece, RecordPiece;
    Fixed(v[i]);
    UptoIn(v, weights, i, m);
  }

  /** A record is its twelve pieces. */
  lemma RecordIsPieces(v: seq<Registry>, weights: seq<int>, i: nat, led: seq<byte>)
    requires |weights| == |v| && i < |v| && Through(v, weights, 12 * i) == led + [LBRACE]
    ensures Through(v, weights, 12 * (i + 1)) == RecordTo(led, v[i], weights[i]) + Closing(i + 1 == |v|)
  {
    hide Upto, Piece, RecordPiece, IntText, Closing, Quoted, Label, Weighed;
    UptoNext(v, weights, 12 * i);
    Fixed(v[i]);
    StringIsPieces(v, weights, i, 1, led + [LBRACE]);
    var named := Quoted(Label(led + [LBRACE], NAME), v[i].name);
    CommaPiece(v, weights, i, 4);
    StringIsPieces(v, weights, i, 5, named + [COMMA]);
    var hosted := Quoted(Label(named + [COMMA], HOST), v[i].host);
    CommaPiece(v, weights, i, 8);
    PortIsPieces(v, weights, i, hosted + [COMMA]);
    var ported := Label(hosted + [COMMA], PORT) + IntText(v[i].port);
    WeightIsPieces(v, weights, i, ported + [COMMA]);
    WeighedNext(v, weights, i);
    WeighedAfter(ported + [COMMA], weights[i], i + 1 == |v|);
  }

  lemma WeighedNext(v: seq<Registry>, weights: seq<int>, i: nat)
    requires |weights| == |v| && i < |v|
    ensures Piece(v, weights, 12 * (i + 1)) == Weighed(weights[i], i + 1 == |v|)
  {
    hide Weighed, RecordPiece;
    Twelfth(i + 1, 0);
  }

  /** The text of the records from the i-th on. */
  lemma {:induction false} RestIsPieces(v: seq<Registry>, weights: seq<int>, i: nat, acc: seq<byte>)
    requires |weights| == |v| && i <= |v| && |v| > 0
    requires Through(v, weights, 12 * i) == if i == 0 then acc + [LBRACE] else acc + Closing(i == |v|)
    ensures RecordsTo(acc, v[i..], weights[i..], i == 0) == Through(v, weights, 12 * |v|)
    decreases |v| - i
  {
    hide RecordTo, Through, IntText;
    if i < |v| {
      var led := if i == 0 then acc else acc + [COMMA] + [LF];
      assert i > 0 ==> acc + Closing(false) == led + [LBRACE];
      RecordIsPieces(v, weights, i, led);
      RecordsNext(acc, v, weights, i);
      RestIsPieces(v, weights, i + 1, RecordTo(led, v[i], weights[i]));
    }
  }

  lemma TextIsPieces(v: seq<Registry>, weights: seq<int>)
    requires |weights| == |v| > 0
    ensures RecordsTo([LBRACKET], v, weights, true) == Through(v, weights, 12 * |v|)
  {
    assert v[0..] == v && weights[0..] == weights;
    assert Through(v, weights, 0) == [LBRACKET] + [LBRACE];
    hide *;
    RestIsPieces(v, weights, 0, [LBRACKET]);
  }
}
