/** Encodable magnitudes have equal bytes exactly when they are the same number. */
module MagnitudeBytes {
  import opened Encoding
  import opened Magnitudes
  import opened NormalForm
  import opened RoundTrip
  import opened Values

  lemma IntPairIsShort(p: Profile, a: int, b: int, depth: nat)
    requires EncodeIntPair(p, a, b, depth).Ok?
    ensures |EncodeIntPair(p, a, b, depth).value| <= 27
  {
  }

  lemma DecimalBytesDecideTheNumber(p: Profile, s1: int, m1: int, s2: int, m2: int)
    requires Encode(p, Decimal(s1, m1)).Ok? && Encode(p, Decimal(s2, m2)).Ok?
    ensures Encode(p, Decimal(s1, m1)) == Encode(p, Decimal(s2, m2))
       <==> DecimalValue(s1, m1) == DecimalValue(s2, m2)
  {
    IntPairIsShort(p, s1, m1, 0);
    IntPairIsShort(p, s2, m2, 0);
    EqualBytesEqualForms(p, Decimal(s1, m1), Decimal(s2, m2));
    FormsOfPairs(s1, m1, s2, m2);
    DecimalFormIsUnique(s1, m1, s2, m2);
  }

  lemma FormsOfPairs(a: int, b: int, c: int, d: int)
    ensures Array([Int(a), Int(b)]) == Array([Int(c), Int(d)]) <==> a == c && b == d
  {
    if Array([Int(a), Int(b)]) == Array([Int(c), Int(d)]) {
      assert [Int(a), Int(b)][0] == [Int(c), Int(d)][0];
      assert [Int(a), Int(b)][1] == [Int(c), Int(d)][1];
    }
  }

  lemma RationalBytesDecideTheNumber(p: Profile, a: int, b: int, c: int, d: int)
    requires Encode(p, Rational(a, b)).Ok? && Encode(p, Rational(c, d)).Ok?
    ensures b != 0 && d != 0
    ensures Encode(p, Rational(a, b)) == Encode(p, Rational(c, d))
       <==> RationalValue(a, b) == RationalValue(c, d)
  {
    IntPairIsShort(p, a, b, 0);
    IntPairIsShort(p, c, d, 0);
    EqualBytesEqualForms(p, Rational(a, b), Rational(c, d));
    FormsOfPairs(a, b, c, d);
    RationalFormIsUnique(a, b, c, d);
  }

  /**
   The wire shape is shared: a decimal and a rational with the same components have the same
   bytes, so which one an array is comes from the schema.
   */
  lemma MagnitudesShareAShape(p: Profile, a: int, b: int)
    requires Encode(p, Decimal(a, b)).Ok? && Encode(p, Rational(a, b)).Ok?
    ensures Encode(p, Decimal(a, b)) == Encode(p, Rational(a, b)) == Encode(p, Array([Int(a), Int(b)]))
  {
    PairIsArray(p, a, b, 0);
  }
}
