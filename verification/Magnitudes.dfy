/**
 The canonical forms of decimals and rationals (cbor/canonical.go) and the reason they
 matter: every number has exactly one accepted form.
 */
module Magnitudes {
  import opened Errors
  import opened Results

  function CheckDecimal(scale: int, mantissa: int): Option<EncodeError> {
    if mantissa == 0 then
      if scale != 0 then Some(ZeroDecimalForm) else None
    else if mantissa % 10 == 0 then Some(MantissaDivisibleByTen)
    else None
  }

  function CheckRational(num: int, den: int): Option<EncodeError> {
    if den <= 0 then Some(DenominatorNotPositive)
    else if num == 0 then
      if den != 1 then Some(ZeroRationalForm) else None
    else if Gcd(Abs(num), den) != 1 then Some(NotCoprime)
    else None
  }

  function Abs(n: int): nat {
    if n < 0 then -n else n
  }

  /** Euclid's algorithm, standing for the library's greatest common divisor. */
  function Gcd(a: nat, b: nat): (g: nat)
    ensures a > 0 || b > 0 ==> g > 0
    decreases b
  {
    if b == 0 then a else Gcd(b, a % b)
  }

  // ---------------------------------------------------------------- decimals

  function PowerOfTen(scale: int): (p: real)
    ensures p > 0.0
    decreases if scale < 0 then -scale else scale
  {
    if scale == 0 then 1.0
    else if scale > 0 then 10.0 * PowerOfTen(scale - 1)
    else PowerOfTen(scale + 1) / 10.0
  }

  function DecimalValue(scale: int, mantissa: int): real {
    mantissa as real * PowerOfTen(scale)
  }

  /** One more power of ten, at any sign of the scale. */
  lemma PowerStep(scale: int)
    ensures PowerOfTen(scale + 1) == 10.0 * PowerOfTen(scale)
  {
    if scale < 0 {
      assert PowerOfTen(scale) == PowerOfTen(scale + 1) / 10.0;
    }
  }

  /** Lowering the scale by `k` multiplies the mantissa by 10^k, keeping the value. */
  lemma {:induction false} Rescale(scale: int, mantissa: int, k: nat) returns (wide: int)
    ensures wide as real * PowerOfTen(scale - k) == DecimalValue(scale, mantissa)
    ensures k > 0 ==> wide % 10 == 0
  {
    if k == 0 {
      wide := mantissa;
    } else {
      var narrow := Rescale(scale, mantissa, k - 1);
      wide := 10 * narrow;
      PowerStep(scale - k);
      assert wide as real == 10.0 * narrow as real;
    }
  }

  lemma CancelPower(a: int, b: int, p: real)
    requires p > 0.0 && a as real * p == b as real * p
    ensures a == b
  {
    assert (a as real - b as real) * p == 0.0;
  }

  lemma HigherScaleIsImpossible(s1: int, m1: int, s2: int, m2: int)
    requires CheckDecimal(s1, m1).None? && CheckDecimal(s2, m2).None?
    requires DecimalValue(s1, m1) == DecimalValue(s2, m2)
    requires m1 != 0 && m2 != 0
    ensures s1 <= s2
  {
    if s1 > s2 {
      var wide := Rescale(s1, m1, s1 - s2);
      CancelPower(wide, m2, PowerOfTen(s2));
    }
  }

  /** Two accepted decimals denote the same number exactly when they are the same pair. */
  lemma DecimalFormIsUnique(s1: int, m1: int, s2: int, m2: int)
    requires CheckDecimal(s1, m1).None? && CheckDecimal(s2, m2).None?
    ensures DecimalValue(s1, m1) == DecimalValue(s2, m2) <==> s1 == s2 && m1 == m2
  {
    if DecimalValue(s1, m1) == DecimalValue(s2, m2) {
      if m1 == 0 || m2 == 0 {
        ZeroOnlyFromZero(s1, m1);
        ZeroOnlyFromZero(s2, m2);
      } else {
        HigherScaleIsImpossible(s1, m1, s2, m2);
        HigherScaleIsImpossible(s2, m2, s1, m1);
        CancelPower(m1, m2, PowerOfTen(s1));
      }
    }
  }

  lemma ZeroOnlyFromZero(scale: int, mantissa: int)
    ensures DecimalValue(scale, mantissa) == 0.0 <==> mantissa == 0
  {
    if mantissa != 0 {
      if DecimalValue(scale, mantissa) == 0.0 {
        CancelPower(mantissa, 0, PowerOfTen(scale));
      }
    }
  }

  /** Every decimal has an accepted form of the same value, so the accepted form is exactly one. */
  lemma {:induction false} DecimalFormExists(scale: int, mantissa: int) returns (s: int, m: int)
    ensures CheckDecimal(s, m).None? && DecimalValue(s, m) == DecimalValue(scale, mantissa)
    decreases Abs(mantissa)
  {
    if mantissa == 0 {
      s, m := 0, 0;
    } else if mantissa % 10 != 0 {
      s, m := scale, mantissa;
    } else {
      s, m := DecimalFormExists(scale + 1, mantissa / 10);
      PowerStep(scale);
      assert mantissa as real == 10.0 * (mantissa / 10) as real;
    }
  }

  // --------------------------------------------------------------- rationals

  ghost predicate Divides(d: int, n: int) {
    exists k: int :: Times(d, k) == n
  }

  function Times(a: int, b: int): int {
    a * b
  }

  lemma DividesIntro(d: int, n: int, k: int)
    requires n == d * k
    ensures Divides(d, n)
  {
    assert Times(d, k) == n;
  }

  /** Bezout's identity for Euclid's algorithm. */
  lemma {:induction false} Bezout(a: nat, b: nat) returns (x: int, y: int)
    ensures a * x + b * y == Gcd(a, b)
    decreases b
  {
    if b == 0 {
      x, y := 1, 0;
    } else {
      var u, v := Bezout(b, a % b);
      x, y := v, u - (a / b) * v;
      calc {
        a * x + b * y;
        a * v + b * (u - (a / b) * v);
        { BezoutStep(a, b, u, v); }
        b * u + (a % b) * v;
      }
    }
  }

  lemma BezoutStep(a: nat, b: nat, u: int, v: int)
    requires b > 0
    ensures a * v + b * (u - (a / b) * v) == b * u + (a % b) * v
  {
    var q, r := a / b, a % b;
    assert a == b * q + r;
    assert a * v == b * q * v + r * v;
  }

  lemma {:induction false} GcdDividesBoth(a: nat, b: nat)
    ensures Divides(Gcd(a, b), a) && Divides(Gcd(a, b), b)
    decreases b
  {
    var g := Gcd(a, b);
    if b == 0 {
      DividesIntro(g, a, 1);
      DividesIntro(g, b, 0);
    } else {
      GcdDividesBoth(b, a % b);
      var k :| Times(g, k) == b;
      var l :| Times(g, l) == a % b;
      var q := a / b;
      assert a == b * q + a % b;
      Reassociate(g, k, q);
      Distribute(g, k * q, l);
      DividesIntro(g, a, k * q + l);
    }
  }

  /** What Euclid's algorithm computes is the greatest common divisor. */
  lemma GcdIsGreatest(a: nat, b: nat, d: int)
    requires Divides(d, a) && Divides(d, b)
    ensures Divides(Gcd(a, b), a) && Divides(Gcd(a, b), b)
    ensures Divides(d, Gcd(a, b))
  {
    GcdDividesBoth(a, b);
    var x, y := Bezout(a, b);
    var k :| Times(d, k) == a;
    var l :| Times(d, l) == b;
    Reassociate(d, k, x);
    Reassociate(d, l, y);
    Distribute(d, k * x, l * y);
    DividesIntro(d, Gcd(a, b), k * x + l * y);
  }

  lemma SignedBezout(a: int, b: nat) returns (x: int, y: int)
    requires Gcd(Abs(a), b) == 1
    ensures a * x + b * y == 1
  {
    var u, v := Bezout(Abs(a), b);
    x, y := if a < 0 then -u else u, v;
    assert a * x == Abs(a) * u;
  }

  /** Euclid's lemma: a number coprime to `b` can be cancelled from a multiple of `b`. */
  lemma EuclidsLemma(a: int, b: nat, d: int, c: int) returns (k: int)
    requires Gcd(Abs(a), b) == 1
    requires a * d == c * b
    ensures d == b * k
  {
    var x, y := SignedBezout(a, b);
    k := c * x + d * y;
    EuclidCombination(a, b, c, d, x, y);
  }

  lemma EuclidCombination(a: int, b: int, c: int, d: int, x: int, y: int)
    requires a * d == c * b && a * x + b * y == 1
    ensures d == b * (c * x + d * y)
  {
    Reassociate(d, a, x);
    Reassociate(c, b, x);
    Reassociate(d, b, y);
    Distribute(d, a * x, b * y);
    Distribute(b, c * x, d * y);
  }

  lemma Distribute(p: int, q: int, r: int)
    ensures p * (q + r) == p * q + p * r
  {
  }

  lemma Reassociate(p: int, q: int, r: int)
    ensures p * (q * r) == (q * p) * r == (p * q) * r == q * (p * r)
  {
  }

  lemma PositiveFactor(p: int, q: int)
    requires p > 0 && p * q > 0
    ensures q > 0
  {
  }

  lemma MultiplesOfEachOther(b: int, d: int, k: int, l: int)
    requires b > 0 && d > 0 && d == b * k && b == d * l
    ensures b == d
  {
    PositiveFactor(b, k);
    PositiveFactor(d, l);
    assert b * k >= b;
    assert d * l >= d;
  }

  lemma AcceptedIsCoprime(num: int, den: int)
    requires CheckRational(num, den).None?
    ensures den > 0 && Gcd(Abs(num), den) == 1
  {
    if num == 0 {
      assert Gcd(0, 1) == Gcd(1, 0) == 1;
    }
  }

  /** Accepted pairs with equal cross products are the same pair. */
  lemma CrossProductDecides(a: int, b: int, c: int, d: int)
    requires CheckRational(a, b).None? && CheckRational(c, d).None?
    ensures a * d == c * b <==> a == c && b == d
  {
    AcceptedIsCoprime(a, b);
    AcceptedIsCoprime(c, d);
    if a * d == c * b {
      var k := EuclidsLemma(a, b, d, c);
      var l := EuclidsLemma(c, d, b, a);
      MultiplesOfEachOther(b, d, k, l);
      CancelFactor(a, c, b);
    }
  }

  lemma CancelFactor(a: int, c: int, b: int)
    requires b != 0 && a * b == c * b
    ensures a == c
  {
    assert (a - c) * b == 0;
  }

  function RationalValue(num: int, den: int): real
    requires den != 0
  {
    num as real / den as real
  }

  lemma EqualValuesCross(a: int, b: int, c: int, d: int)
    requires b != 0 && d != 0
    ensures RationalValue(a, b) == RationalValue(c, d) <==> a * d == c * b
  {
    var ra, rb, rc, rd := a as real, b as real, c as real, d as real;
    var p, q := ra / rb, rc / rd;
    assert p * rb == ra && q * rd == rc;
    assert (a * d) as real == ra * rd && (c * b) as real == rc * rb;
    assert ra * rd == p * (rb * rd);
    assert rc * rb == q * (rb * rd);
    assert rb * rd != 0.0;
    assert p * (rb * rd) - q * (rb * rd) == (p - q) * (rb * rd);
  }

  /** Two accepted rationals denote the same number exactly when they are the same pair. */
  lemma RationalFormIsUnique(a: int, b: int, c: int, d: int)
    requires CheckRational(a, b).None? && CheckRational(c, d).None?
    ensures b != 0 && d != 0
    ensures RationalValue(a, b) == RationalValue(c, d) <==> a == c && b == d
  {
    AcceptedIsCoprime(a, b);
    AcceptedIsCoprime(c, d);
    EqualValuesCross(a, b, c, d);
    CrossProductDecides(a, b, c, d);
  }

  lemma DivisorOfOne(h: int, m: int)
    requires h > 0 && h * m == 1
    ensures h == 1
  {
    PositiveFactor(h, m);
    assert h * m >= h;
  }

  lemma CombinationOfOne(n: nat, l: nat, x: int, y: int)
    requires n * x + l * y == 1
    ensures Gcd(n, l) == 1
  {
    var h := Gcd(n, l);
    GcdDividesBoth(n, l);
    var s :| Times(h, s) == n;
    var t :| Times(h, t) == l;
    Reassociate(h, s, x);
    Reassociate(h, t, y);
    var m := s * x + t * y;
    assert h * m == h * (s * x) + h * (t * y) == 1;
    assert h > 0;
    DivisorOfOne(h, m);
  }

  lemma CancelCombination(g: int, n: int, l: int, x: int, y: int)
    requires g > 0 && (g * n) * x + (g * l) * y == g
    ensures n * x + l * y == 1
  {
    Reassociate(g, n, x);
    Reassociate(g, l, y);
    var m := n * x + l * y;
    assert g * m == g * (n * x) + g * (l * y);
    CancelFactor(m, 1, g);
  }

  lemma AbsOfMultiple(g: nat, k: int)
    ensures Abs(g * k) == g * Abs(k)
  {
  }

  lemma CofactorsAreCoprime(a: int, b: nat, g: nat, k: int, l: nat)
    requires g == Gcd(Abs(a), b) && g > 0 && a == g * k && b == g * l && l > 0
    ensures Gcd(Abs(k), l) == 1
  {
    hide Gcd;
    var x, y := Bezout(Abs(a), b);
    AbsOfMultiple(g, k);
    CancelCombination(g, Abs(k), l, x, y);
    CombinationOfOne(Abs(k), l, x, y);
  }

  /** A ratio with a positive denominator, divided through by the greatest common divisor. */
  lemma Reduced(a: int, b: nat) returns (num: int, den: int)
    requires a != 0 && b > 0
    ensures CheckRational(num, den).None? && den != 0
    ensures a * den == num * b
  {
    var g := Gcd(Abs(a), b);
    GcdDividesBoth(Abs(a), b);
    var k :| Times(g, k) == Abs(a);
    den :| Times(g, den) == b;
    PositiveFactor(g, den);
    num := if a < 0 then -k else k;
    assert a == g * num;
    CofactorsAreCoprime(a, b, g, num, den);
    Reassociate(g, num, den);
    assert num != 0;
  }

  /** Every ratio of integers has an accepted form of the same value. */
  lemma RationalFormExists(a: int, b: int) returns (num: int, den: int)
    requires b != 0
    ensures CheckRational(num, den).None? && den != 0
    ensures RationalValue(num, den) == RationalValue(a, b)
  {
    if a == 0 {
      num, den := 0, 1;
    } else if b > 0 {
      num, den := Reduced(a, b);
    } else {
      num, den := Reduced(-a, -b);
      assert (-a) * den == -(a * den) && num * (-b) == -(num * b);
    }
    EqualValuesCross(num, den, a, b);
  }

  /** No number above 1 divides both. */
  ghost predicate Coprime(a: int, b: int) {
    forall d :: d > 0 && Divides(d, a) && Divides(d, b) ==> d == 1
  }

  lemma DividesAbs(d: int, a: int)
    ensures Divides(d, Abs(a)) <==> Divides(d, a)
  {
    if k :| Times(d, k) == Abs(a) {
      assert Times(d, -k) == -(d * k);
      assert Times(d, if a < 0 then -k else k) == a;
    }
    if k :| Times(d, k) == a {
      assert Times(d, -k) == -(d * k);
      assert Times(d, if a < 0 then -k else k) == Abs(a);
    }
  }

  /** What `CheckRational` accepts, without its algorithm: coprime pairs with a positive denominator. */
  lemma AcceptedExactlyWhenCoprime(num: int, den: int)
    ensures CheckRational(num, den).None? <==> den > 0 && Coprime(num, den)
  {
    if den > 0 {
      var g := Gcd(Abs(num), den);
      GcdDividesBoth(Abs(num), den);
      DividesAbs(g, num);
      if CheckRational(num, den).None? {
        AcceptedIsCoprime(num, den);
        forall d | d > 0 && Divides(d, num) && Divides(d, den) ensures d == 1 {
          DividesAbs(d, num);
          GcdIsGreatest(Abs(num), den, d);
          var m :| Times(d, m) == 1;
          DivisorOfOne(d, m);
        }
      }
      if Coprime(num, den) {
        assert g == 1;
        if num == 0 {
          DividesIntro(den, 0, 0);
          DividesIntro(den, den, 1);
        }
      }
    }
  }
}
