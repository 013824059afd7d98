/** The one-byte status codes a tile answers with, and the table that
    converts between them and their wire values. */
module StatusCodes {
  import opened Common

  datatype StatusCode =
    | Error
    | TooSlow
    | NonMatchingCRC
    | UnknownCommand
    | ErrorInternal
    | NotACWPort
    | Ok
    | Next
    | Reset

  /** The wire values that name a status code; every other byte is unknown. */
  const KnownCodes: set<Byte> := {0, 1, 2, 3, 50, 51, 100, 101, 255}

  /** Decodes a received byte; unknown bytes give `None`. */
  function New(code: Byte): (r: Option<StatusCode>)
    ensures r.Some? <==> code in KnownCodes
    ensures r.Some? ==> AsU8(r.value) == code
  {
    match code
    case 0 => Some(Error)
    case 1 => Some(TooSlow)
    case 2 => Some(NonMatchingCRC)
    case 3 => Some(UnknownCommand)
    case 50 => Some(ErrorInternal)
    case 51 => Some(NotACWPort)
    case 100 => Some(Ok)
    case 101 => Some(Next)
    case 255 => Some(Reset)
    case _ => None
  }

  /** Encodes a status code as the byte the tile sends. */
  function AsU8(s: StatusCode): (code: Byte)
    ensures code in KnownCodes
  {
    match s
    case Error => 0
    case TooSlow => 1
    case NonMatchingCRC => 2
    case UnknownCommand => 3
    case ErrorInternal => 50
    case NotACWPort => 51
    case Ok => 100
    case Next => 101
    case Reset => 255
  }

  /** The number shown in parentheses when a status code is displayed. */
  function DisplayNumber(s: StatusCode): (n: nat)
    ensures s != Reset ==> n == AsU8(s)
    ensures s == Reset ==> n == 102 && n != AsU8(s)
  {
    match s
    case Error => 0
    case TooSlow => 1
    case NonMatchingCRC => 2
    case UnknownCommand => 3
    case ErrorInternal => 50
    case NotACWPort => 51
    case Ok => 100
    case Next => 101
    case Reset => 102
  }

  /** Encoding then decoding gives back the status code. */
  lemma EncodeDecode(s: StatusCode)
    ensures New(AsU8(s)) == Some(s)
  {
  }

  /** Decoding then encoding gives back the byte, whenever it decodes. */
  lemma DecodeEncode(code: Byte)
    requires New(code).Some?
    ensures AsU8(New(code).value) == code
  {
  }

  /** No two status codes share a wire value. */
  lemma AsU8Injective(s: StatusCode, t: StatusCode)
    requires AsU8(s) == AsU8(t)
    ensures s == t
  {
    EncodeDecode(s);
    EncodeDecode(t);
  }

  /** The displayed number differs from the wire value for exactly one code. */
  lemma DisplayDisagreesOnlyForReset(s: StatusCode)
    ensures DisplayNumber(s) != AsU8(s) <==> s == Reset
  {
  }
}
