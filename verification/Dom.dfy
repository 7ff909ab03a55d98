/** The values of rapidjson/document.h: numbers with their type flags, and the stack on which the
    document's handlers rebuild values from events. */
module Dom {
  import opened Options
  import opened Bytes
  import opened Json

  const TWO31 := 0x8000_0000
  const TWO32 := 0x1_0000_0000
  const TWO63 := 0x8000_0000_0000_0000
  const TWO64 := 0x1_0000_0000_0000_0000

  // --- numbers ---

  /** An integer value: which types it fits, and the 64 bits of the number union. */
  datatype Number = Number(isInt: bool, isUint: bool, isInt64: bool, isUint64: bool, bits: int)

  /** The value's bits when written to a 64-bit member of the union (two's complement). */
  function Bits(i: int): int { if i >= 0 then i else i + TWO64 }

  /** The constructors test with masks that no bit from a power of two up is set: the value is below it. */
  predicate Below(u: int, power: nat) { u < power }

  /** The masks of the constructors test exactly that. */
  lemma MasksTestBounds(u: bv64, w: bv32)
    ensures u & 0xFFFF_FFFF_8000_0000 == 0 <==> u < 0x8000_0000
    ensures u & 0xFFFF_FFFF_0000_0000 == 0 <==> u < 0x1_0000_0000
    ensures u & 0x8000_0000_0000_0000 == 0 <==> u < 0x8000_0000_0000_0000
    ensures w & 0x8000_0000 == 0 <==> w < 0x8000_0000
  {}

  function FromInt(i: int): Number { Number(true, i >= 0, true, i >= 0, Bits(i)) }

  function FromUint(u: int): Number { Number(Below(u, TWO31), true, true, true, Bits(u)) }

  function FromInt64(i: int): Number {
    if i >= 0 then Number(Below(i, TWO31), Below(i, TWO32), true, true, Bits(i))
    else Number(i >= -TWO31, false, true, false, Bits(i))
  }

  function FromUint64(u: int): Number {
    Number(Below(u, TWO31), Below(u, TWO32), Below(u, TWO63), true, Bits(u))
  }

  function Signed32(bits: int): int { if bits % TWO32 < TWO31 then bits % TWO32 else bits % TWO32 - TWO32 }

  function Signed64(bits: int): int { if bits < TWO63 then bits else bits - TWO64 }

  /** The event Accept sends for a number. */
  function NumberEvent(n: Number): Event {
    if n.isInt then Int(Signed32(n.bits))
    else if n.isUint then Uint(n.bits % TWO32)
    else if n.isInt64 then Int64(Signed64(n.bits))
    else Uint64(n.bits)
  }

  /** The number with value z, each flag telling whether z fits the type. */
  function Canonical(z: int): Number {
    Number(-TWO31 <= z < TWO31, 0 <= z < TWO32, -TWO63 <= z < TWO63, 0 <= z < TWO64, Bits(z))
  }

  /** Whichever constructor builds an integer, flags and bits come out the same. */
  lemma FlagsAreCanonical(z: int)
    ensures -TWO31 <= z < TWO31 ==> FromInt(z) == Canonical(z)
    ensures 0 <= z < TWO32 ==> FromUint(z) == Canonical(z)
    ensures -TWO63 <= z < TWO63 ==> FromInt64(z) == Canonical(z)
    ensures 0 <= z < TWO64 ==> FromUint64(z) == Canonical(z)
    ensures -TWO63 <= z < TWO64 ==>
      0 <= Canonical(z).bits < 0x1_0000_0000_0000_0000 && (Canonical(z).bits - z) % 0x1_0000_0000_0000_0000 == 0
  {}

  function EventInt(e: Event): int
    requires e.Int? || e.Uint? || e.Int64? || e.Uint64?
  {
    match e case Int(i) => i case Uint(i) => i case Int64(i) => i case Uint64(i) => i
  }

  /** Accept sends the exact value, in the first of int, unsigned, int64, uint64 that holds it. */
  lemma AcceptSendsTheValue(z: int)
    requires -TWO63 <= z < TWO64
    ensures NumberEvent(Canonical(z)) ==
      if -TWO31 <= z < TWO31 then Int(z) else if 0 <= z < TWO32 then Uint(z)
      else if z < TWO63 then Int64(z) else Uint64(z)
  {}

  // --- values ---

  datatype Value =
    | VNull
    | VBool(b: bool)
    | VNumber(n: Number)
    | VDouble(literal: seq<byte>)
    | VString(str: Text)
    | VObject(fields: seq<Field>)
    | VArray(elements: seq<Value>)

  datatype Field = Field(name: Text, value: Value)

  /** The stack of the document holds names and values in turn when an object ends. */
  predicate Paired(vs: seq<Value>) {
    |vs| % 2 == 0 && forall i | 0 <= i < |vs| && i % 2 == 0 :: vs[i].VString?
  }

  lemma PairedNext(vs: seq<Value>, name: Value, v: Value)
    requires Paired(vs) && name.VString?
    ensures Paired(vs + [name, v])
  {}

  function Fields(vs: seq<Value>): (fs: seq<Field>)
    requires Paired(vs)
    ensures |fs| == |vs| / 2
  {
    seq(|vs| / 2, i requires 0 <= i < |vs| / 2 => Field(vs[2 * i].str, vs[2 * i + 1]))
  }

  /** The value pushed for a one-value event. */
  function Leaf(e: Event): Value
    requires !e.StartObject? && !e.EndObject? && !e.StartArray? && !e.EndArray?
  {
    match e
    case Null => VNull
    case Bool(b) => VBool(b)
    case Int(i) => VNumber(FromInt(i))
    case Uint(i) => VNumber(FromUint(i))
    case Int64(i) => VNumber(FromInt64(i))
    case Uint64(i) => VNumber(FromUint64(i))
    case Double(literal) => VDouble(literal)
    case String(str) => VString(str)
  }

  /** One handler call on the document's stack; None is a failed assertion of the handler. */
  function Step(st: seq<Value>, e: Event): Option<seq<Value>> {
    match e
    case StartObject => Some(st + [VObject([])])
    case StartArray => Some(st + [VArray([])])
    case EndObject(n) =>
      if |st| > 2 * n && Paired(st[|st| - 2 * n..])
      then Some(st[..|st| - 2 * n - 1] + [VObject(Fields(st[|st| - 2 * n..]))])
      else None
    case EndArray(n) =>
      if |st| > n then Some(st[..|st| - n - 1] + [VArray(st[|st| - n..])]) else None
    case _ => Some(st + [Leaf(e)])
  }

  /** The stack after a run of handler calls on an empty document. */
  function Run(ev: seq<Event>): Option<seq<Value>> {
    if ev == [] then Some([])
    else
      match Run(ev[..|ev| - 1])
      case None => None
      case Some(st) => Step(st, ev[|ev| - 1])
  }

  lemma RunNext(ev: seq<Event>, e: Event)
    ensures Run(ev + [e]) == if Run(ev).Some? then Step(Run(ev).value, e) else None
  {}
}
