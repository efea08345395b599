/**
 Bytes and the bytewise order the codec sorts and compares map keys by
 (`bytes.Compare`, cbor/encode.go:188 and cbor/decode.go:220).
 */
module ByteOrder {

  type Byte = x: int | 0 <= x < 256

  /** The number of values a Go `int` length or count can take on a 64-bit machine. */
  const INT_LIMIT := 0x8000_0000_0000_0000

  /** The number of values a Go `uint64` can take. */
  const UINT64_LIMIT := 0x1_0000_0000_0000_0000

  /** `a` sorts strictly before `b`: first difference decides, a proper prefix comes first. */
  predicate Less(a: seq<Byte>, b: seq<Byte>) {
    b != [] && (a == [] || a[0] < b[0] || (a[0] == b[0] && Less(a[1..], b[1..])))
  }

  function Compare(a: seq<Byte>, b: seq<Byte>): int {
    if a == b then 0 else if Less(a, b) then -1 else 1
  }

  /** `Less` is a strict total order. */
  lemma {:induction false} LessIsTotal(a: seq<Byte>, b: seq<Byte>)
    ensures a == b ==> !Less(a, b)
    ensures a != b ==> (Less(a, b) <==> !Less(b, a))
  {
    if a != [] && b != [] && a[0] == b[0] {
      LessIsTotal(a[1..], b[1..]);
      assert a == [a[0]] + a[1..] && b == [b[0]] + b[1..];
    }
  }

  lemma {:induction false} LessIsTransitive(a: seq<Byte>, b: seq<Byte>, c: seq<Byte>)
    requires Less(a, b) && Less(b, c)
    ensures Less(a, c)
  {
    if a != [] && a[0] == b[0] && b[0] == c[0] {
      LessIsTransitive(a[1..], b[1..], c[1..]);
    }
  }

  /** A common prefix does not affect the order. */
  lemma {:induction false} LessAfterPrefix(p: seq<Byte>, a: seq<Byte>, b: seq<Byte>)
    ensures Less(p + a, p + b) <==> Less(a, b)
  {
    if p == [] {
      assert p + a == a && p + b == b;
    } else {
      assert (p + a)[1..] == p[1..] + a && (p + b)[1..] == p[1..] + b;
      LessAfterPrefix(p[1..], a, b);
    }
  }

  /** Strings already ordered by equally long prefixes stay ordered under any suffixes. */
  lemma {:induction false} LessBySuffix(a: seq<Byte>, b: seq<Byte>, x: seq<Byte>, y: seq<Byte>)
    requires |a| == |b| && Less(a, b)
    ensures Less(a + x, b + y)
  {
    if a[0] == b[0] {
      LessBySuffix(a[1..], b[1..], x, y);
      assert (a + x)[1..] == a[1..] + x && (b + y)[1..] == b[1..] + y;
    }
  }
}
