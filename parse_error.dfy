/** `JsonParseError` (src/parse_error.rs). The boxed `std::error::Error` of
    `InvalidValue` becomes a `Cause` value naming what went wrong. */
module ParseError {
  import opened Wrappers
  import opened Bytes
  import opened Kind

  /** Rust's `IntErrorKind`, the reason `str::parse` rejects an integer. */
  datatype IntErrorKind = Empty | InvalidDigit | PosOverflow | NegOverflow | Zero

  /** What an `InvalidValue` error carries. */
  datatype Cause =
    | ExpectedKinds(expected: seq<JsonValueKind>, found: JsonValueKind)
    | TooFewElements(expectedLen: nat, got: nat)
    | TooManyElements(expectedLen: nat, got: nat)
    | MissingMembers(names: seq<seq<Byte>>)
    | ParseBool
    | ParseInt(intError: IntErrorKind)

  datatype JsonParseError =
    | UnexpectedEos(kind: Option<JsonValueKind>, position: nat)
    | UnexpectedTrailingChar(trailingKind: JsonValueKind, position: nat)
    | UnexpectedValueChar(kind: Option<JsonValueKind>, position: nat)
    | InvalidValue(valueKind: JsonValueKind, position: nat, error: Cause)
    | UnexpectedKind(expectedKinds: seq<JsonValueKind>, actualKind: JsonValueKind, position: nat)
    | UnexpectedArraySize(expected: nat, actual: nat, position: nat)
    | MissingRequiredMember(memberNames: seq<string>, position: nat)
  {
    /** The byte offset every variant carries. */
    function Position(): (p: nat)
      ensures p == this.position
    {
      match this
      case UnexpectedEos(_, p) => p
      case UnexpectedTrailingChar(_, p) => p
      case UnexpectedValueChar(_, p) => p
      case UnexpectedKind(_, _, p) => p
      case InvalidValue(_, p, _) => p
      case UnexpectedArraySize(_, _, p) => p
      case MissingRequiredMember(_, p) => p
    }
  }
}
