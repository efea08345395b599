/** The refusal vocabularies of the codec: cbor/errors.go and the messages of cbor/encode.go. */
module Errors {

  /** One constructor for each message the encoder refuses with. */
  datatype EncodeError =
    | NestingTooDeep
    | IntegerTooLarge
    | IntegerTooSmall
    | TextNotUtf8
    | TextCarriesBom
    | TextNotNfc
    | ZeroDecimalForm
    | MantissaDivisibleByTen
    | DenominatorNotPositive
    | ZeroRationalForm
    | NotCoprime
    | MixedKeys
    | BadKey
    | DuplicateKey

  datatype Reason =
    | NonMinimal
    | IndefiniteLength
    | TrailingBytes
    | DuplicateMapKey
    | UnsortedMapKeys
    | MixedMapKeys
    | BadMapKeyType
    | Tag
    | Float
    | Null
    | SimpleValue
    | ReservedAdditional
    | Truncated
    | InvalidUtf8
    | ByteOrderMark
    | NonNfc
    | DepthExceeded
    | SizeExceeded
  {
    /** Reasons triggered by a bound the decoder declares, not by the bytes alone. */
    predicate LimitRelative() {
      DepthExceeded? || SizeExceeded?
    }
  }

  datatype DecodeError = DecodeError(reason: Reason, pos: nat)

  /** The decoder's name for a text refusal (cbor/decode.go:260-272). */
  function TextReason(e: EncodeError): Reason {
    match e
    case TextNotUtf8 => InvalidUtf8
    case TextCarriesBom => ByteOrderMark
    case TextNotNfc => NonNfc
    case _ => InvalidUtf8
  }
}
