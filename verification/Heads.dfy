/**
 The CBOR head: a major type and an argument in the shortest of five forms (RFC 8949,
 section 3). `Head` is what the encoder writes (cbor/encode.go:86-105), `ReadArg` what the
 decoder accepts (cbor/decode.go:93-154); the lemmas make them inverse and order-preserving.
 */
module Heads {
  import opened ByteOrder
  import opened Errors
  import opened Results

  /** The low `width` bytes of `n`, most significant first. */
  function BigEndian(n: nat, width: nat): (s: seq<Byte>)
    ensures |s| == width
  {
    if width == 0 then [] else BigEndian(n / 256, width - 1) + [n % 256]
  }

  /** The number a big-endian byte string denotes, as `takeUint` accumulates it. */
  function BigEndianValue(s: seq<Byte>): nat {
    if s == [] then 0 else BigEndianValue(s[..|s| - 1]) * 256 + s[|s| - 1]
  }

  function Power256(width: nat): (p: nat)
    ensures p > 0
  {
    if width == 0 then 1 else 256 * Power256(width - 1)
  }

  function Head(major: nat, arg: nat): (s: seq<Byte>)
    requires major < 8
    ensures 1 <= |s| <= 9 && s[0] / 32 == major
  {
    if arg < 24 then [major * 32 + arg]
    else if arg < 0x100 then [major * 32 + 24] + BigEndian(arg, 1)
    else if arg < 0x1_0000 then [major * 32 + 25] + BigEndian(arg, 2)
    else if arg < 0x1_0000_0000 then [major * 32 + 26] + BigEndian(arg, 4)
    else [major * 32 + 27] + BigEndian(arg, 8)
  }

  datatype Argument = Argument(arg: nat, pos: nat)

  /** The argument bytes from `pos` on, or truncation at the head they belong to. */
  function TakeUint(data: seq<Byte>, pos: nat, width: nat, headPos: nat): (r: Result<Argument, DecodeError>)
    requires pos <= |data|
    ensures r.Ok? ==> r.value.pos == pos + width <= |data|
  {
    if pos + width > |data| then Err(DecodeError(Truncated, headPos))
    else Ok(Argument(BigEndianValue(data[pos..pos + width]), pos + width))
  }

  /** An argument of `width` bytes, refused when a shorter form holds it. */
  function TakeMinimal(data: seq<Byte>, pos: nat, width: nat, least: nat, headPos: nat)
    : (r: Result<Argument, DecodeError>)
    requires pos <= |data|
    ensures r.Ok? ==> r.value.pos == pos + width <= |data| && r.value.arg >= least
  {
    var a :- TakeUint(data, pos, width, headPos);
    if a.arg < least then Err(DecodeError(NonMinimal, headPos)) else Ok(a)
  }

  function ReadArg(data: seq<Byte>, pos: nat, ai: nat, headPos: nat): (r: Result<Argument, DecodeError>)
    requires pos <= |data| && ai < 32
    ensures r.Ok? ==> pos <= r.value.pos <= |data|
  {
    if ai < 24 then Ok(Argument(ai, pos))
    else if ai == 24 then TakeMinimal(data, pos, 1, 24, headPos)
    else if ai == 25 then TakeMinimal(data, pos, 2, 0x100, headPos)
    else if ai == 26 then TakeMinimal(data, pos, 4, 0x1_0000, headPos)
    else if ai == 27 then TakeMinimal(data, pos, 8, 0x1_0000_0000, headPos)
    else if ai == 31 then Err(DecodeError(IndefiniteLength, headPos))
    else Err(DecodeError(ReservedAdditional, headPos))
  }

  // ------------------------------------------------------- big-endian numbers

  lemma {:induction false} ValueOfBigEndian(n: nat, width: nat)
    requires n < Power256(width)
    ensures BigEndianValue(BigEndian(n, width)) == n
  {
    if width > 0 {
      ValueOfBigEndian(n / 256, width - 1);
      var s := BigEndian(n, width);
      assert s[..width - 1] == BigEndian(n / 256, width - 1);
    }
  }

  lemma {:induction false} BigEndianOfValue(s: seq<Byte>)
    ensures BigEndianValue(s) < Power256(|s|)
    ensures BigEndian(BigEndianValue(s), |s|) == s
  {
    if s != [] {
      var front, last := s[..|s| - 1], s[|s| - 1];
      BigEndianOfValue(front);
      var n := BigEndianValue(s);
      assert n / 256 == BigEndianValue(front) && n % 256 == last;
      assert s == front + [last];
    }
  }

  lemma Widths()
    ensures Power256(1) == 0x100 && Power256(2) == 0x1_0000
    ensures Power256(4) == 0x1_0000_0000 && Power256(8) == UINT64_LIMIT
  {
    assert Power256(3) == 0x100_0000 && Power256(5) == 0x100_0000_0000;
    assert Power256(6) == 0x1_0000_0000_0000 && Power256(7) == 0x100_0000_0000_0000;
  }

  lemma {:induction false} LessAtLast(a: seq<Byte>, b: seq<Byte>, x: Byte, y: Byte)
    requires |a| == |b|
    ensures Less(a + [x], b + [y]) <==> Less(a, b) || (a == b && x < y)
  {
    if Less(a, b) {
      LessBySuffix(a, b, [x], [y]);
    } else if a == b {
      LessAfterPrefix(a, [x], [y]);
    } else {
      LessIsTotal(a, b);
      LessBySuffix(b, a, [y], [x]);
      LessIsTotal(a + [x], b + [y]);
    }
  }

  lemma {:induction false} BigEndianOrder(n: nat, m: nat, width: nat)
    requires n < m < Power256(width)
    ensures Less(BigEndian(n, width), BigEndian(m, width))
  {
    LessAtLast(BigEndian(n / 256, width - 1), BigEndian(m / 256, width - 1), n % 256, m % 256);
    if n / 256 < m / 256 {
      BigEndianOrder(n / 256, m / 256, width - 1);
    }
  }

  // ------------------------------------------------------------------- heads

  /** The number of argument bytes behind the first byte of a head. */
  function ArgWidth(arg: nat): nat {
    if arg < 24 then 0 else if arg < 0x100 then 1 else if arg < 0x1_0000 then 2
    else if arg < 0x1_0000_0000 then 4 else 8
  }

  function AdditionalInfo(arg: nat): nat {
    if arg < 24 then arg else if arg < 0x100 then 24 else if arg < 0x1_0000 then 25
    else if arg < 0x1_0000_0000 then 26 else 27
  }

  lemma HeadShape(major: nat, arg: nat)
    requires major < 8
    ensures Head(major, arg) == [major * 32 + AdditionalInfo(arg)] + BigEndian(arg, ArgWidth(arg))
    ensures |Head(major, arg)| == 1 + ArgWidth(arg)
    ensures Head(major, arg)[0] == major * 32 + AdditionalInfo(arg)
  {
  }

  /** Reading at a written head gives the argument back and stops right behind the head. */
  lemma ReadWrittenHead(data: seq<Byte>, pos: nat, major: nat, arg: nat)
    requires major < 8 && arg < UINT64_LIMIT
    requires pos + |Head(major, arg)| <= |data|
    requires data[pos..pos + |Head(major, arg)|] == Head(major, arg)
    ensures data[pos] == major * 32 + AdditionalInfo(arg)
    ensures ReadArg(data, pos + 1, data[pos] % 32, pos) == Ok(Argument(arg, pos + |Head(major, arg)|))
  {
    HeadShape(major, arg);
    Widths();
    var h := Head(major, arg);
    var w := ArgWidth(arg);
    assert data[pos] == data[pos..pos + |h|][0];
    if arg >= 24 {
      assert data[pos + 1..pos + 1 + w] == data[pos..pos + |h|][1..] == BigEndian(arg, w);
      ValueOfBigEndian(arg, w);
    }
  }

  /** An accepted argument is in its shortest form. */
  lemma AcceptedArgShape(data: seq<Byte>, pos: nat, ai: nat, headPos: nat)
    requires pos <= |data| && ai < 32
    requires ReadArg(data, pos, ai, headPos).Ok?
    ensures var a := ReadArg(data, pos, ai, headPos).value;
            && a.arg < UINT64_LIMIT
            && ai == AdditionalInfo(a.arg)
            && a.pos == pos + ArgWidth(a.arg)
            && data[pos..a.pos] == BigEndian(a.arg, ArgWidth(a.arg))
  {
    hide BigEndian, BigEndianValue, Power256;
    Widths();
    NoBytes(ai);
    if ai >= 24 {
      BigEndianOfValue(data[pos..ReadArg(data, pos, ai, headPos).value.pos]);
    }
  }

  lemma NoBytes(n: nat)
    ensures BigEndian(n, 0) == []
  {
  }

  /** An accepted head is the one the encoder writes: every longer form is refused. */
  lemma AcceptedHeadIsWritten(data: seq<Byte>, pos: nat)
    requires pos < |data|
    requires ReadArg(data, pos + 1, data[pos] % 32, pos).Ok?
    ensures var a := ReadArg(data, pos + 1, data[pos] % 32, pos).value;
            a.arg < UINT64_LIMIT && data[pos..a.pos] == Head(data[pos] / 32, a.arg)
  {
    var a := ReadArg(data, pos + 1, data[pos] % 32, pos).value;
    AcceptedArgShape(data, pos + 1, data[pos] % 32, pos);
    HeadShape(data[pos] / 32, a.arg);
    assert data[pos..a.pos] == [data[pos]] + data[pos + 1..a.pos];
  }

  /** Heads of one major type compare bytewise as their arguments compare. */
  lemma HeadOrder(major: nat, n: nat, m: nat)
    requires major < 8 && n < m < UINT64_LIMIT
    ensures Less(Head(major, n), Head(major, m))
  {
    HeadShape(major, n);
    HeadShape(major, m);
    Widths();
    var x, y := major * 32 + AdditionalInfo(n), major * 32 + AdditionalInfo(m);
    var a, b := BigEndian(n, ArgWidth(n)), BigEndian(m, ArgWidth(m));
    if AdditionalInfo(n) == AdditionalInfo(m) {
      BigEndianOrder(n, m, ArgWidth(n));
      assert ([x] + a)[1..] == a && ([y] + b)[1..] == b;
    }
  }

  /** The order survives whatever follows the heads, so no head is a prefix of another. */
  lemma HeadOrderWithTails(major: nat, n: nat, m: nat, s: seq<Byte>, t: seq<Byte>)
    requires major < 8 && n < m < UINT64_LIMIT
    ensures Less(Head(major, n) + s, Head(major, m) + t)
  {
    HeadShape(major, n);
    HeadShape(major, m);
    HeadOrder(major, n, m);
    if AdditionalInfo(n) == AdditionalInfo(m) {
      LessBySuffix(Head(major, n), Head(major, m), s, t);
    } else {
      assert (Head(major, n) + s)[0] < (Head(major, m) + t)[0];
    }
  }

  /** A head of a smaller major type sorts first, whatever the arguments. */
  lemma MajorOrder(j: nat, k: nat, n: nat, m: nat, s: seq<Byte>, t: seq<Byte>)
    requires j < k < 8
    ensures Less(Head(j, n) + s, Head(k, m) + t)
  {
    HeadShape(j, n);
    HeadShape(k, m);
    assert (Head(j, n) + s)[0] < (Head(k, m) + t)[0];
  }

  /**
   The head refused for being too long: whenever the argument bytes are all there, the
   refusal is non-minimal exactly when the encoder would have written a shorter head.
   */
  lemma LongerFormsAreRefused(data: seq<Byte>, pos: nat, width: nat, arg: nat)
    requires width in {1, 2, 4, 8} && pos + 1 + width <= |data|
    requires data[pos] % 32 == (if width == 1 then 24 else if width == 2 then 25 else if width == 4 then 26 else 27)
    requires data[pos + 1..pos + 1 + width] == BigEndian(arg, width) && arg < Power256(width)
    ensures ReadArg(data, pos + 1, data[pos] % 32, pos)
         == if ArgWidth(arg) == width then Ok(Argument(arg, pos + 1 + width))
            else Err(DecodeError(NonMinimal, pos))
  {
    Widths();
    ValueOfBigEndian(arg, width);
  }
}
