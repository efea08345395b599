/**
 The UTF-8 test of the text rules against UTF-8 itself: the byte strings it accepts are
 exactly the encodings of sequences of Unicode scalar values (RFC 3629, section 3).
 */
module Utf8 {
  import opened ByteOrder
  import opened TextRules

  /** A Unicode scalar value: any code point but a surrogate. */
  type Scalar = c: int | 0 <= c < 0xD800 || 0xE000 <= c < 0x11_0000

  function EncodeScalar(c: Scalar): (s: seq<Byte>)
    ensures 1 <= |s| <= 4
  {
    if c < 0x80 then [c]
    else if c < 0x800 then [0xC0 + c / 0x40, 0x80 + c % 0x40]
    else if c < 0x1_0000 then [0xE0 + c / 0x1000, 0x80 + c / 0x40 % 0x40, 0x80 + c % 0x40]
    else [0xF0 + c / 0x4_0000, 0x80 + c / 0x1000 % 0x40, 0x80 + c / 0x40 % 0x40, 0x80 + c % 0x40]
  }

  function EncodeScalars(cs: seq<Scalar>): seq<Byte> {
    if cs == [] then [] else EncodeScalar(cs[0]) + EncodeScalars(cs[1..])
  }

  lemma ScalarIsRecognized(c: Scalar, rest: seq<Byte>)
    ensures RuneLength(EncodeScalar(c) + rest) == |EncodeScalar(c)|
  {
    if c < 0x800 {
    } else if c < 0x1_0000 {
      TripleIsRecognized(c, rest);
    } else {
      QuadrupleIsRecognized(c, rest);
    }
  }

  lemma TripleIsRecognized(c: Scalar, rest: seq<Byte>)
    requires 0x800 <= c < 0x1_0000
    ensures RuneLength(EncodeScalar(c) + rest) == 3
  {
    assert c / 0x40 == c / 0x1000 * 0x40 + c / 0x40 % 0x40;
    assert TripleLead(0xE0 + c / 0x1000, 0x80 + c / 0x40 % 0x40);
  }

  lemma QuadrupleIsRecognized(c: Scalar, rest: seq<Byte>)
    requires 0x1_0000 <= c
    ensures RuneLength(EncodeScalar(c) + rest) == 4
  {
    assert c / 0x1000 == c / 0x4_0000 * 0x40 + c / 0x1000 % 0x40;
    assert QuadrupleLead(0xF0 + c / 0x4_0000, 0x80 + c / 0x1000 % 0x40);
  }

  lemma RecognizedIsScalar(s: seq<Byte>) returns (c: Scalar)
    requires s != [] && RuneLength(s) > 0
    ensures EncodeScalar(c) == s[..RuneLength(s)]
  {
    var n := RuneLength(s);
    if n == 1 {
      c := s[0];
    } else if n == 2 {
      var lead: int, low: int := s[0] - 0xC0, s[1] - 0x80;
      c := lead * 0x40 + low;
    } else if n == 3 {
      c := FromTriple(s[0], s[1], s[2]);
    } else {
      c := FromQuadruple(s[0], s[1], s[2], s[3]);
    }
  }

  lemma FromTriple(x: Byte, y: Byte, z: Byte) returns (c: Scalar)
    requires TripleLead(x, y) && Continuation(z)
    ensures EncodeScalar(c) == [x, y, z]
  {
    var high := (x - 0xE0) * 0x40 + (y - 0x80);
    var n := high * 0x40 + (z - 0x80);
    assert n / 0x40 == high && n % 0x40 == z - 0x80;
    assert high / 0x40 == x - 0xE0 && high % 0x40 == y - 0x80;
    assert n / 0x1000 == high / 0x40;
    c := n;
  }

  lemma FromQuadruple(w: Byte, x: Byte, y: Byte, z: Byte) returns (c: Scalar)
    requires QuadrupleLead(w, x) && Continuation(y) && Continuation(z)
    ensures EncodeScalar(c) == [w, x, y, z]
  {
    var top := (w - 0xF0) * 0x40 + (x - 0x80);
    var high := top * 0x40 + (y - 0x80);
    var n := high * 0x40 + (z - 0x80);
    assert n / 0x40 == high && n % 0x40 == z - 0x80;
    assert high / 0x40 == top && high % 0x40 == y - 0x80;
    assert top / 0x40 == w - 0xF0 && top % 0x40 == x - 0x80;
    assert n / 0x1000 == top && n / 0x4_0000 == w - 0xF0;
    c := n;
  }

  lemma {:induction false} EncodedIsValid(cs: seq<Scalar>)
    ensures ValidUtf8(EncodeScalars(cs))
  {
    if cs != [] {
      var first, rest := EncodeScalar(cs[0]), EncodeScalars(cs[1..]);
      ScalarIsRecognized(cs[0], rest);
      EncodedIsValid(cs[1..]);
      assert (first + rest)[|first|..] == rest;
    }
  }

  lemma {:induction false} ValidIsEncoded(s: seq<Byte>) returns (cs: seq<Scalar>)
    requires ValidUtf8(s)
    ensures EncodeScalars(cs) == s
    decreases |s|
  {
    if s == [] {
      cs := [];
    } else {
      var n := RuneLength(s);
      var c := RecognizedIsScalar(s);
      var rest := ValidIsEncoded(s[n..]);
      cs := [c] + rest;
      assert cs[1..] == rest && s == s[..n] + s[n..];
    }
  }

  /** The test accepts exactly the UTF-8 encodings of scalar value sequences. */
  lemma ValidExactlyWhenEncoded(s: seq<Byte>)
    ensures ValidUtf8(s) <==> exists cs: seq<Scalar> :: EncodeScalars(cs) == s
  {
    if ValidUtf8(s) {
      var cs := ValidIsEncoded(s);
    }
    if cs: seq<Scalar> :| EncodeScalars(cs) == s {
      EncodedIsValid(cs);
    }
  }

  /** Three bytes are the encoding of one scalar at most. */
  lemma TripleDecides(c: Scalar, d: Scalar)
    requires EncodeScalar(c) == EncodeScalar(d) && |EncodeScalar(c)| == 3
    ensures c == d
  {
    TripleDigits(c);
    TripleDigits(d);
    assert EncodeScalar(c)[0] == EncodeScalar(d)[0];
    assert EncodeScalar(c)[1] == EncodeScalar(d)[1];
    assert EncodeScalar(c)[2] == EncodeScalar(d)[2];
  }

  lemma TripleDigits(c: int)
    requires 0 <= c
    ensures c == 0x1000 * (c / 0x1000) + 0x40 * (c / 0x40 % 0x40) + c % 0x40
  {
    assert c / 0x40 == 0x40 * (c / 0x1000) + c / 0x40 % 0x40;
  }

  /** The byte-order mark of the text rules is the scalar U+FEFF, in first place. */
  lemma BomIsFirstScalar(cs: seq<Scalar>)
    ensures HasBom(EncodeScalars(cs)) <==> cs != [] && cs[0] == 0xFEFF
  {
    if cs != [] {
      var s, first, rest := EncodeScalars(cs), EncodeScalar(cs[0]), EncodeScalars(cs[1..]);
      assert EncodeScalar(0xFEFF) == [0xEF, 0xBB, 0xBF];
      ScalarIsRecognized(cs[0], rest);
      assert forall i :: 0 <= i < |first| ==> s[i] == first[i];
      hide EncodeScalar;
      if HasBom(s) {
        assert s[0] == 0xEF && RuneLength(s) == |first|;
        LeadOfThree(s);
        assert first == [0xEF, 0xBB, 0xBF];
        TripleDecides(cs[0], 0xFEFF);
      }
    }
  }

  lemma LeadOfThree(s: seq<Byte>)
    requires s != [] && s[0] == 0xEF && RuneLength(s) > 0
    ensures RuneLength(s) == 3
  {
  }
}
