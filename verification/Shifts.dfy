/** The shifts `head` writes its argument bytes with, as digits base 256 (cbor/encode.go:96-103). */
module Shifts {
  import opened Heads

  lemma SmallMultiple(d: int, e: int)
    requires -d < d * e < d
    ensures e == 0
  {
    assert e >= 1 ==> d * e >= d;
    assert e <= -1 ==> d * e <= -d;
  }

  lemma QuotientIs(n: nat, d: nat, u: nat, r: nat)
    requires d > 0 && n == d * u + r && r < d
    ensures n / d == u
  {
    var q := n / d;
    assert n == d * q + n % d;
    assert d * (q - u) == d * q - d * u;
    SmallMultiple(d, q - u);
  }

  lemma AtLeastOnce(a: nat, k: nat)
    requires k >= 1
    ensures a * k >= a
  {
  }

  lemma SplitFactor(a: int, b: int, w: int)
    ensures a * b == a * w + a * (b - w)
  {
  }

  lemma RemainderBound(a: nat, b: nat, w: nat, r: nat)
    requires r < a && w < b
    ensures a * w + r < a * b
  {
    AtLeastOnce(a, b - w);
    SplitFactor(a, b, w);
  }

  lemma Recombine(n: int, a: int, b: int, q: int, u: int, w: int, r: int)
    requires n == a * q + r && q == b * u + w
    ensures n == (a * b) * u + (a * w + r)
  {
    Expand(a, b, u, w);
  }

  lemma Expand(a: int, b: int, u: int, w: int)
    ensures a * (b * u + w) == (a * b) * u + a * w
  {
  }

  lemma DivideTwice(n: nat, a: nat, b: nat)
    requires a > 0 && b > 0
    ensures a * b > 0 && n / a / b == n / (a * b)
  {
    Division(n, a);
    Division(n / a, b);
    DividePartsTwice(n, a, b, n / a, n % a, n / a / b, n / a % b);
  }

  lemma Division(n: nat, a: nat)
    requires a > 0
    ensures n == a * (n / a) + n % a && n % a < a
  {
  }

  lemma DividePartsTwice(n: nat, a: nat, b: nat, q: nat, r: nat, u: nat, w: nat)
    requires n == a * q + r && r < a && q == b * u + w && w < b
    ensures a * b > 0 && n / (a * b) == u
  {
    AtLeastOnce(a, b);
    RemainderBound(a, b, w, r);
    Recombine(n, a, b, q, u, w, r);
    QuotientIs(n, a * b, u, a * w + r);
  }

  /** Byte `i` of the big-endian form is the number shifted down to it. */
  lemma {:induction false} BigEndianAt(n: nat, width: nat, i: nat)
    requires i < width
    ensures BigEndian(n, width)[i] == n / Power256(width - 1 - i) % 256
  {
    if i < width - 1 {
      BigEndianAt(n / 256, width - 1, i);
      DivideTwice(n, 256, Power256(width - 2 - i));
    }
  }

  /** Shifting by several bytes at once is shifting byte by byte. */
  lemma ShiftTwoBytes(n: nat)
    ensures BigEndian(n, 1) == [n % 0x100]
    ensures BigEndian(n, 2) == [n / 0x100 % 0x100, n % 0x100]
  {
    Widths();
    BigEndianAt(n, 1, 0);
    BigEndianAt(n, 2, 0);
    BigEndianAt(n, 2, 1);
  }

  lemma ShiftFourBytes(n: nat)
    ensures BigEndian(n, 4) == [n / 0x100_0000 % 0x100, n / 0x1_0000 % 0x100, n / 0x100 % 0x100, n % 0x100]
  {
    Widths();
    BigEndianAt(n, 4, 0);
    BigEndianAt(n, 4, 1);
    BigEndianAt(n, 4, 2);
    BigEndianAt(n, 4, 3);
  }

  lemma ShiftEightBytes(n: nat)
    ensures BigEndian(n, 8)
         == [n / 0x100_0000_0000_0000 % 0x100, n / 0x1_0000_0000_0000 % 0x100,
             n / 0x100_0000_0000 % 0x100, n / 0x1_0000_0000 % 0x100,
             n / 0x100_0000 % 0x100, n / 0x1_0000 % 0x100, n / 0x100 % 0x100, n % 0x100]
  {
    Widths();
    BigEndianAt(n, 8, 0);
    BigEndianAt(n, 8, 1);
    BigEndianAt(n, 8, 2);
    BigEndianAt(n, 8, 3);
    BigEndianAt(n, 8, 4);
    BigEndianAt(n, 8, 5);
    BigEndianAt(n, 8, 6);
    BigEndianAt(n, 8, 7);
  }
}
