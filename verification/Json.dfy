/** The events a reader sends to its handler, and the errors it can report. */
module Json {
  import opened Bytes

  /** A string argument of an event: copied bytes, or a stretch of the parsed buffer. */
  datatype Text = Copied(bytes: seq<byte>) | InPlace(head: nat, len: nat)

  datatype Event =
    | Null
    | Bool(b: bool)
    | Int(i: int)
    | Uint(i: int)
    | Int64(i: int)
    | Uint64(i: int)
    | Double(literal: seq<byte>)
    | String(str: Text)
    | StartObject
    | EndObject(memberCount: nat)
    | StartArray
    | EndArray(elementCount: nat)

  datatype Error =
    | OnlyWhitespace | ExpectRoot | TrailingText
    | NameNotString | MissingColon | MemberSeparator | ElementSeparator
    | InvalidValue | BadHexDigit | MissingLowSurrogate | BadLowSurrogate
    | UnknownEscape | UnterminatedString | ControlInString
    | ExpectValue | NumberTooBig | NoFractionDigit | NoExponentDigit

  /** What a parsing function does: it hands over events and moves the cursor, or it fails. */
  datatype Outcome =
    | Done(events: seq<Event>, pos: nat)
    | Fail(events: seq<Event>, error: Error, offset: int)
}
