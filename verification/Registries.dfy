/** The records of core/Registry.cpp: written by hand as JSON text, read back through the reader. */
module Registries {
  import opened Bytes
  import opened Decimal
  import opened Rendering

  /** A registered service instance. */
  datatype Registry = Registry(
    name: seq<byte>, host: seq<byte>, port: int, ctime: nat, mtime: nat, ephemeral: seq<byte>)

  /** Registry::equals. */
  predicate Equals(a: Registry, b: Registry) { a.name == b.name && a.host == b.host && a.port == b.port }

  const NAME: seq<byte> := [0x6E, 0x61, 0x6D, 0x65]
  const HOST: seq<byte> := [0x68, 0x6F, 0x73, 0x74]
  const PORT: seq<byte> := [0x70, 0x6F, 0x72, 0x74]
  const WEIGHT: seq<byte> := [0x77, 0x65, 0x69, 0x67, 0x68, 0x74]

  // --- the text of records ---

  /** "s" and a colon, after acc. */
  function Label(acc: seq<byte>, s: seq<byte>): seq<byte> { acc + [QUOTE] + s + [QUOTE] + [COLON] }

  function Quoted(acc: seq<byte>, s: seq<byte>): seq<byte> { acc + [QUOTE] + s + [QUOTE] }

  /** An int as a stream writes it. */
  function IntText(i: int): seq<byte> { if i < 0 then [MINUS] + Digits(-i) else Digits(i) }

  /** acc with the text of a record: {"name":"..","host":"..","port":..,"weight":.. } */
  function RecordTo(acc: seq<byte>, r: Registry, weight: int): seq<byte> {
    var named := Quoted(Label(acc + [LBRACE], NAME), r.name);
    var hosted := Quoted(Label(named + [COMMA], HOST), r.host);
    var ported := Label(hosted + [COMMA], PORT) + IntText(r.port);
    Label(ported + [COMMA], WEIGHT) + IntText(weight) + [SPACE] + [RBRACE]
  }

  /** acc with the records v and the closing bracket. */
  function RecordsTo(acc: seq<byte>, v: seq<Registry>, weights: seq<int>, first: bool): seq<byte>
    requires |weights| == |v|
    decreases |v|
  {
    if v == [] then acc + [RBRACKET]
    else
      RecordsTo(RecordTo(if first then acc else acc + [COMMA] + [LF], v[0], weights[0]), v[1..], weights[1..], false)
  }

  // --- the pieces that are written ---

  const MID_HOST: seq<byte> := [COMMA] + [QUOTE] + HOST + [QUOTE] + [COLON] + [QUOTE]
  const MID_PORT: seq<byte> := [COMMA] + [QUOTE] + PORT + [QUOTE] + [COLON]

  const OPEN_NAME: seq<byte> := [LBRACE] + [QUOTE] + NAME + [QUOTE] + [COLON] + [QUOTE]
  const OPEN_HOST: seq<byte> := [QUOTE] + MID_HOST
  const OPEN_PORT: seq<byte> := [QUOTE] + MID_PORT
  const OPEN_WEIGHT: seq<byte> := [COMMA] + [QUOTE] + WEIGHT + [QUOTE] + [COLON]
  const CLOSE: seq<byte> := [SPACE] + [RBRACE]

  /** A name and its colon after a brace or comma. */
  lemma LabelPiece(acc: seq<byte>, c: byte, s: seq<byte>)
    ensures acc + ([c] + [QUOTE] + s + [QUOTE] + [COLON]) == Label(acc + [c], s)
    ensures acc + ([c] + [QUOTE] + s + [QUOTE] + [COLON] + [QUOTE]) == Label(acc + [c], s) + [QUOTE]
  {}

  lemma PiecesSpelledOut()
    ensures OPEN_NAME == [0x7B, 0x22, 0x6E, 0x61, 0x6D, 0x65, 0x22, 0x3A, 0x22]
    ensures OPEN_HOST == [0x22, 0x2C, 0x22, 0x68, 0x6F, 0x73, 0x74, 0x22, 0x3A, 0x22]
    ensures OPEN_PORT == [0x22, 0x2C, 0x22, 0x70, 0x6F, 0x72, 0x74, 0x22, 0x3A]
    ensures OPEN_WEIGHT == [0x2C, 0x22, 0x77, 0x65, 0x69, 0x67, 0x68, 0x74, 0x22, 0x3A]
    ensures CLOSE == [0x20, 0x7D]
  {}

  /** The text of a record, its bytes spelled out. */
  lemma RecordSpelledOut(name: seq<byte>, host: seq<byte>, port: seq<byte>, weight: seq<byte>)
    ensures OPEN_NAME + name + OPEN_HOST + host + OPEN_PORT + port + OPEN_WEIGHT + weight + CLOSE ==
      [0x7B, 0x22, 0x6E, 0x61, 0x6D, 0x65, 0x22, 0x3A, 0x22] + name
      + [0x22, 0x2C, 0x22, 0x68, 0x6F, 0x73, 0x74, 0x22, 0x3A, 0x22] + host
      + [0x22, 0x2C, 0x22, 0x70, 0x6F, 0x72, 0x74, 0x22, 0x3A] + port
      + [0x2C, 0x22, 0x77, 0x65, 0x69, 0x67, 0x68, 0x74, 0x22, 0x3A] + weight + [0x20, 0x7D]
  {
    PiecesSpelledOut();
  }

  /** Registry::serialize for one record: its pieces written to a string stream. */
  method SerializeOne(r: Registry, weight: int) returns (ss: seq<byte>)
    ensures ss == RecordTo([], r, weight) && |ss| > 2
    ensures ss == [0x7B, 0x22, 0x6E, 0x61, 0x6D, 0x65, 0x22, 0x3A, 0x22] + r.name
      + [0x22, 0x2C, 0x22, 0x68, 0x6F, 0x73, 0x74, 0x22, 0x3A, 0x22] + r.host
      + [0x22, 0x2C, 0x22, 0x70, 0x6F, 0x72, 0x74, 0x22, 0x3A] + IntText(r.port)
      + [0x2C, 0x22, 0x77, 0x65, 0x69, 0x67, 0x68, 0x74, 0x22, 0x3A] + IntText(weight) + [0x20, 0x7D]
  {
    RecordSpelledOut(r.name, r.host, IntText(r.port), IntText(weight));
    hide Label;
    ss := [] + OPEN_NAME;
    assert ss == OPEN_NAME;
    LabelPiece([], LBRACE, NAME);
    ss := ss + r.name;
    ghost var named := ss + [QUOTE];
    Regroup(ss, [QUOTE], MID_HOST);
    ss := ss + OPEN_HOST;
    LabelPiece(named, COMMA, HOST);
    ss := ss + r.host;
    ghost var hosted := ss + [QUOTE];
    Regroup(ss, [QUOTE], MID_PORT);
    ss := ss + OPEN_PORT;
    LabelPiece(hosted, COMMA, PORT);
    ss := ss + IntText(r.port);
    LabelPiece(ss, COMMA, WEIGHT);
    ss := ss + OPEN_WEIGHT;
    ss := ss + IntText(weight);
    Regroup(ss, [SPACE], [RBRACE]);
    ss := ss + CLOSE;
  }

  /** What is written does not depend on what stands before it. */
  lemma LabelShifts(a: seq<byte>, x: seq<byte>, s: seq<byte>)
    ensures Label(a + x, s) == a + Label(x, s) && Quoted(a + x, s) == a + Quoted(x, s)
  {}

  lemma RecordShifts(a: seq<byte>, x: seq<byte>, r: Registry, weight: int)
    ensures RecordTo(a + x, r, weight) == a + RecordTo(x, r, weight)
  {
    hide Label, Quoted, IntText;
    Regroup(a, x, [LBRACE]);
    LabelShifts(a, x + [LBRACE], NAME);
    LabelShifts(a, Label(x + [LBRACE], NAME), r.name);
    var named := Quoted(Label(x + [LBRACE], NAME), r.name);
    Regroup(a, named, [COMMA]);
    LabelShifts(a, named + [COMMA], HOST);
    LabelShifts(a, Label(named + [COMMA], HOST), r.host);
    var hosted := Quoted(Label(named + [COMMA], HOST), r.host);
    Regroup(a, hosted, [COMMA]);
    LabelShifts(a, hosted + [COMMA], PORT);
    var labelled := Label(hosted + [COMMA], PORT);
    Regroup(a, labelled, IntText(r.port));
    Regroup(a, labelled + IntText(r.port), [COMMA]);
    LabelShifts(a, labelled + IntText(r.port) + [COMMA], WEIGHT);
    var last := Label(labelled + IntText(r.port) + [COMMA], WEIGHT);
    Regroup(a, last, IntText(weight));
    Regroup(a, last + IntText(weight), [SPACE]);
    Regroup(a, last + IntText(weight) + [SPACE], [RBRACE]);
  }

  lemma RecordsNext(acc: seq<byte>, v: seq<Registry>, weights: seq<int>, i: nat)
    requires |weights| == |v| && i < |v|
    ensures RecordsTo(acc, v[i..], weights[i..], i == 0) ==
      RecordsTo(RecordTo(if i == 0 then acc else acc + [COMMA] + [LF], v[i], weights[i]),
                v[i + 1..], weights[i + 1..], false)
  {}

  lemma RecordsEnd(acc: seq<byte>, first: bool)
    ensures RecordsTo(acc, [], [], first) == acc + [RBRACKET]
  {}

  /** One more record stands behind a comma and a line feed, before the bracket. */
  lemma {:induction false} OneMoreRecord(acc: seq<byte>, v: seq<Registry>, weights: seq<int>, first: bool,
    r: Registry, weight: int)
    requires |weights| == |v|
    ensures var text := RecordsTo(acc, v, weights, first);
      && |text| > 0 && text[|text| - 1] == 0x5D
      && RecordsTo(acc, v + [r], weights + [weight], first) ==
         RecordTo(text[..|text| - 1] + (if first && v == [] then [] else [0x2C, 0x0A]), r, weight) + [0x5D]
    ensures RecordsTo([LBRACKET], [], [], true) == [0x5B, 0x5D]
    decreases |v|
  {
    hide RecordTo;
    if v == [] {
      assert [] + [r] == [r] && [] + [weight] == [weight];
      assert (acc + [RBRACKET])[..|acc|] == acc && acc + [] == acc;
      assert acc + [COMMA] + [LF] == acc + [0x2C, 0x0A];
    } else {
      var next := RecordTo(if first then acc else acc + [COMMA] + [LF], v[0], weights[0]);
      assert (v + [r])[1..] == v[1..] + [r] && (weights + [weight])[1..] == weights[1..] + [weight];
      OneMoreRecord(next, v[1..], weights[1..], false, r, weight);
    }
  }

  /** Registry::serialize for several records. */
  method Serialize(v: seq<Registry>, weights: seq<int>) returns (ret: seq<byte>)
    requires |weights| == |v|
    ensures ret == RecordsTo([LBRACKET], v, weights, true)
  {
    hide RecordTo, RecordsTo;
    ret := [LBRACKET];
    ghost var target := RecordsTo([LBRACKET], v, weights, true);
    assert v[0..] == v && weights[0..] == weights;
    for i := 0 to |v|
      invariant RecordsTo(ret, v[i..], weights[i..], i == 0) == target
      invariant if i == 0 then ret == [LBRACKET] else |ret| > 2
    {
      RecordsNext(ret, v, weights, i);
      if |ret| > 2 {
        Regroup(ret, [COMMA], [LF]);
        ret := ret + ([COMMA] + [LF]);
      }
      var ss := SerializeOne(v[i], weights[i]);
      RecordShifts(ret, [], v[i], weights[i]);
      assert ret + [] == ret;
      ret := ret + ss;
    }
    RecordsEnd(ret, |v| == 0);
    ret := ret + [RBRACKET];
  }
}
