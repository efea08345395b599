/** The canonical text rules, checked in the order of `validateText` (cbor/encode.go:217-228). */
module TextRules {
  import opened ByteOrder
  import opened Errors
  import opened Results

  predicate Continuation(b: Byte) {
    0x80 <= b <= 0xBF
  }

  /** Length of the well-formed UTF-8 sequence `s` starts with (RFC 3629, section 4), or 0. */
  function RuneLength(s: seq<Byte>): (n: nat)
    requires s != []
    ensures n <= |s|
  {
    var b := s[0];
    if b <= 0x7F then 1
    else if |s| >= 2 && 0xC2 <= b <= 0xDF && Continuation(s[1]) then 2
    else if |s| >= 3 && Continuation(s[2]) && TripleLead(b, s[1]) then 3
    else if |s| >= 4 && Continuation(s[2]) && Continuation(s[3]) && QuadrupleLead(b, s[1]) then 4
    else 0
  }

  predicate TripleLead(b: Byte, c: Byte) {
    || (b == 0xE0 && 0xA0 <= c <= 0xBF)
    || (0xE1 <= b <= 0xEC && Continuation(c))
    || (b == 0xED && 0x80 <= c <= 0x9F)
    || (0xEE <= b <= 0xEF && Continuation(c))
  }

  predicate QuadrupleLead(b: Byte, c: Byte) {
    || (b == 0xF0 && 0x90 <= c <= 0xBF)
    || (0xF1 <= b <= 0xF3 && Continuation(c))
    || (b == 0xF4 && 0x80 <= c <= 0x8F)
  }

  predicate ValidUtf8(s: seq<Byte>)
    decreases |s|
  {
    s == [] || (RuneLength(s) > 0 && ValidUtf8(s[RuneLength(s)..]))
  }

  predicate HasBom(s: seq<Byte>) {
    |s| >= 3 && s[0] == 0xEF && s[1] == 0xBB && s[2] == 0xBF
  }

  function ValidateText(s: seq<Byte>, isNfc: seq<Byte> -> bool): Option<EncodeError> {
    if !ValidUtf8(s) then Some(TextNotUtf8)
    else if HasBom(s) then Some(TextCarriesBom)
    else if !isNfc(s) then Some(TextNotNfc)
    else None
  }
}
