/** Verdicts the two halves of the codec must share: on text, and on nesting depth. */
module Verdicts {
  import opened ByteOrder
  import opened CanonicalDomain
  import opened Decoding
  import opened Encoding
  import opened Errors
  import opened Heads
  import opened Limits
  import opened NormalForm
  import opened Results
  import opened RoundTrip
  import opened Shifts
  import opened TextRules
  import opened Utf8
  import opened Values

  /**
   The decoder refuses the bytes of a text exactly when the encoder refuses the text, with
   the decoder's name for the same rule, found at the head.
   */
  lemma TextVerdictsAgree(p: Profile, s: seq<Byte>)
    requires p.maxItems >= 1 && |TextBytes(s)| < INT_LIMIT
    ensures Decode(p, TextBytes(s))
         == match EncodeValue(p, Text(s), 0)
            case Ok(_) => Ok(Text(s))
            case Err(e) => Err(DecodeError(TextReason(e), 0))
  {
    hide ReadArg, Head, ValidUtf8, At;
    var data := TextBytes(s);
    assert data[0..|data|] == data;
    AtStart(data);
    ReadHead(data, 0, 3, |s|, s);
    AtSlice(data, |Head(3, |s|)|, s);
  }

  lemma AtStart(data: seq<Byte>)
    ensures At(data, 0, data)
  {
    assert data[0..|data|] == data;
  }

  /** The verdict on a text written as scalar values: the mark U+FEFF in first place, then normalization. */
  lemma TextOfScalars(p: Profile, cs: seq<Scalar>)
    ensures Encode(p, Text(EncodeScalars(cs)))
         == if cs != [] && cs[0] == 0xFEFF then Err(TextCarriesBom)
            else if !p.isNfc(EncodeScalars(cs)) then Err(TextNotNfc)
            else Ok(Head(3, |EncodeScalars(cs)|) + EncodeScalars(cs))
  {
    hide ValidUtf8, HasBom, EncodeScalars, Head;
    EncodedIsValid(cs);
    BomIsFirstScalar(cs);
  }

  /** And the decoder's, on the bytes such a text is written as. */
  lemma BytesOfScalars(p: Profile, cs: seq<Scalar>)
    requires p.maxItems >= 1 && |Head(3, |EncodeScalars(cs)|) + EncodeScalars(cs)| < INT_LIMIT
    ensures Decode(p, Head(3, |EncodeScalars(cs)|) + EncodeScalars(cs))
         == if cs != [] && cs[0] == 0xFEFF then Err(DecodeError(ByteOrderMark, 0))
            else if !p.isNfc(EncodeScalars(cs)) then Err(DecodeError(NonNfc, 0))
            else Ok(Text(EncodeScalars(cs)))
  {
    hide ValidUtf8, HasBom, EncodeScalars, Head, Decode;
    EncodedIsValid(cs);
    BomIsFirstScalar(cs);
    TextVerdictsAgree(p, EncodeScalars(cs));
  }

  /** Texts that are no encoding of scalars are refused for that, by both. */
  lemma NotScalarsIsRefused(p: Profile, s: seq<Byte>)
    requires p.maxItems >= 1 && |Head(3, |s|) + s| < INT_LIMIT
    ensures Encode(p, Text(s)) == Err(TextNotUtf8) <==> forall cs :: EncodeScalars(cs) != s
    ensures Decode(p, Head(3, |s|) + s) == Err(DecodeError(InvalidUtf8, 0)) <==> forall cs :: EncodeScalars(cs) != s
  {
    hide ValidUtf8, HasBom, EncodeScalars, Head, Decode;
    ValidExactlyWhenEncoded(s);
    TextVerdictsAgree(p, s);
  }

  // ----------------------------------------------------------------- nesting

  /** `k` one-element arrays around an integer. */
  function Nested(k: nat): Value {
    if k == 0 then Int(0) else Array([Nested(k - 1)])
  }

  function NestedBytes(k: nat): (s: seq<Byte>)
    ensures |s| == k + 1
  {
    if k == 0 then [0x00] else [0x81] + NestedBytes(k - 1)
  }

  lemma OneItem(p: Profile, v: Value, depth: nat)
    ensures EncodeItems(p, [v], 1, depth)
         == match EncodeValue(p, v, depth) case Ok(b) => Ok([] + b) case Err(e) => Err(e)
  {
    assert EncodeItems(p, [v], 0, depth) == Ok([]);
  }

  /** The encoder's depth bound is exact: `k` levels below `depth` fit or they do not. */
  lemma {:induction false} NestedEncodes(p: Profile, k: nat, depth: nat)
    ensures EncodeValue(p, Nested(k), depth)
         == if depth + k <= p.maxDepth then Ok(NestedBytes(k)) else Err(NestingTooDeep)
    decreases k
  {
    if k > 0 && depth <= p.maxDepth {
      NestedEncodes(p, k - 1, depth + 1);
      OneItem(p, Nested(k - 1), depth + 1);
      assert Head(4, 1) == [0x81];
      assert [] + NestedBytes(k - 1) == NestedBytes(k - 1);
    }
  }

  lemma {:induction false} NestedByteAt(k: nat, i: nat)
    requires i <= k
    ensures NestedBytes(k)[i] == if i < k then 0x81 else 0x00
  {
    if i > 0 {
      NestedByteAt(k - 1, i - 1);
    }
  }

  lemma {:induction false} NestedDecodesFrom(p: Profile, k: nat, i: nat)
    requires i <= k < p.maxItems && i <= p.maxDepth + 1
    ensures DecodeItem(p, NestedBytes(k), i, i, i)
         == if k <= p.maxDepth then Ok(Parsed(Nested(k - i), k + 1, k + 1))
            else Err(DecodeError(DepthExceeded, p.maxDepth + 1))
    decreases k - i
  {
    hide DecodeItem, DecodeItems, NestedBytes;
    if i > p.maxDepth {
      TooDeep(p, NestedBytes(k), i, i, i);
    } else {
      NestedByteAt(k, i);
      if i == k {
        ZeroItem(p, NestedBytes(k), i);
      } else {
        NestedDecodesFrom(p, k, i + 1);
        OneDecoded(p, NestedBytes(k), i + 1, i + 1, i + 1);
        OneElementHead(p, NestedBytes(k), i);
        assert [] + [Nested(k - i - 1)] == [Nested(k - i - 1)];
      }
    }
  }

  /** What follows a one-byte head of a one-element array. */
  lemma OneElementHead(p: Profile, data: seq<Byte>, i: nat)
    requires i < |data| && data[i] == 0x81 && i <= p.maxDepth && i < p.maxItems
    ensures DecodeItem(p, data, i, i, i)
         == match DecodeItems(p, data, i + 1, i + 1, i + 1, 1)
            case Ok(r) => Ok(Parsed(Array(r.val), r.pos, r.items))
            case Err(e) => Err(e)
  {
    hide DecodeItems;
    assert ReadArg(data, i + 1, 1, i) == Ok(Argument(1, i + 1));
  }

  /** The end of the nesting. */
  lemma ZeroItem(p: Profile, data: seq<Byte>, i: nat)
    requires i < |data| && data[i] == 0x00 && i <= p.maxDepth && i < p.maxItems
    ensures DecodeItem(p, data, i, i, i) == Ok(Parsed(Int(0), i + 1, i + 1))
  {
  }

  lemma TooDeep(p: Profile, data: seq<Byte>, pos: nat, items: nat, depth: nat)
    requires pos <= |data| && depth > p.maxDepth
    ensures DecodeItem(p, data, pos, items, depth) == Err(DecodeError(DepthExceeded, pos))
  {
  }

  lemma OneDecoded(p: Profile, data: seq<Byte>, pos: nat, items: nat, depth: nat)
    requires pos <= |data|
    ensures DecodeItems(p, data, pos, items, depth, 1)
         == match DecodeItem(p, data, pos, items, depth)
            case Ok(r) => Ok(Parsed([] + [r.val], r.pos, r.items))
            case Err(e) => Err(e)
  {
    assert DecodeItems(p, data, pos, items, depth, 0) == Ok(Parsed([], pos, items));
  }

  /**
   Where the line is: nested arrays within the bound round-trip, and one level more is refused
   by the encoder and, at the first byte beyond, by the decoder.
   */
  lemma NestedDepthLine(p: Profile, k: nat)
    requires k < p.maxItems
    ensures Encode(p, Nested(k)) == if k <= p.maxDepth then Ok(NestedBytes(k)) else Err(NestingTooDeep)
    ensures Decode(p, NestedBytes(k))
         == if k <= p.maxDepth then Ok(Nested(k)) else Err(DecodeError(DepthExceeded, p.maxDepth + 1))
  {
    hide EncodeValue, DecodeItem, Nested, NestedBytes;
    NestedEncodes(p, k, 0);
    NestedDecodesFrom(p, k, 0);
  }

  // ----------------------------------------------------- the line for every value

  lemma {:induction false} NormalFormDepth(p: Profile, q: Profile, v: Value, depth: nat)
    requires p.isNfc == q.isNfc && Canonical(q, v, depth) && Canonical(p, Norm(v), depth)
    ensures Canonical(p, v, depth)
    decreases v
  {
    NormUnfolds(v);
    match v {
      case Array(items) =>
        forall i | 0 <= i < |items| ensures Canonical(p, items[i], depth + 1) {
          assert Canonical(p, NormItems(items)[i], depth + 1);
          NormalFormDepth(p, q, items[i], depth + 1);
        }
      case Map(entries) =>
        forall i | 0 <= i < |entries| ensures CanonicalEntry(p, entries[i], depth + 1) {
          var j := PlaceInSorted(NormEntries(entries), i);
          NormalFormEntryDepth(p, q, entries[i], depth + 1);
        }
      case Decimal(scale, mantissa) =>
        assert Canonical(p, [Int(scale), Int(mantissa)][0], depth + 1);
      case Rational(num, den) =>
        assert Canonical(p, [Int(num), Int(den)][0], depth + 1);
      case _ =>
    }
  }

  lemma {:induction false} NormalFormEntryDepth(p: Profile, q: Profile, e: MapEntry, depth: nat)
    requires p.isNfc == q.isNfc && CanonicalEntry(q, e, depth) && CanonicalEntry(p, NormEntry(e), depth)
    ensures CanonicalEntry(p, e, depth)
    decreases e
  {
    NormalFormDepth(p, q, e.value, depth);
  }

  /**
   Whatever the value, under a smaller depth bound the encoder refuses it for nesting exactly
   when the decoder refuses its bytes for depth; where they do not, the bytes are the same and
   decode as before.
   */
  lemma DepthLineIsShared(p: Profile, q: Profile, v: Value)
    requires Wider(p, q) && p.maxItems == q.maxItems
    requires Encode(q, v).Ok? && |Encode(q, v).value| < INT_LIMIT && Count(v) <= p.maxItems
    ensures var r := Decode(p, Encode(q, v).value);
            && (Encode(p, v) == Err(NestingTooDeep) <==> r.Err? && r.error.reason == DepthExceeded)
            && (Encode(p, v) != Err(NestingTooDeep) ==> Encode(p, v) == Encode(q, v) && r == Ok(Norm(v)))
  {
    hide EncodeValue, DecodeItem, Canonical, Norm, Count;
    var b := Encode(q, v).value;
    EncodeThenDecode(q, v);
    if Encode(p, v) != Err(NestingTooDeep) {
      EncodeKeeps(p, q, v, 0);
      EncodeThenDecode(p, v);
    } else {
      EachBoundDecidesItsOwn(p, q, b);
      if Decode(p, b).Ok? {
        BoundsDoNotDecide(p, q, b);
        DecodeReturnsCanonical(p, b);
        EncodeSucceedsOnDomain(q, v);
        NormalFormDepth(p, q, v, 0);
        EncodeSucceedsOnDomain(p, v);
        assert false;
      }
    }
  }

  /** At the declared bounds: 64 levels pass, 65 are refused. */
  lemma DeclaredDepth(isNfc: seq<Byte> -> bool)
    ensures Decode(DeclaredProfile(isNfc), NestedBytes(64)) == Ok(Nested(64))
    ensures Decode(DeclaredProfile(isNfc), NestedBytes(65)) == Err(DecodeError(DepthExceeded, 65))
  {
    NestedDepthLine(DeclaredProfile(isNfc), 64);
    NestedDepthLine(DeclaredProfile(isNfc), 65);
  }

  // ---------------------------------------------------------------- item budget

  function Zeros(n: nat): seq<Byte> {
    seq(n, _ => 0)
  }

  function ZeroInts(n: nat): seq<Value> {
    seq(n, _ => Int(0))
  }

  /** The array of `n` zeros as its bytes. */
  function FlatBytes(n: nat): seq<Byte> {
    Head(4, n) + Zeros(n)
  }

  lemma {:induction false} ZerosDecode(p: Profile, data: seq<Byte>, pos: nat, items: nat, depth: nat, k: nat)
    requires pos + k <= |data| && forall i :: pos <= i < pos + k ==> data[i] == 0
    requires depth <= p.maxDepth && items <= p.maxItems
    ensures DecodeItems(p, data, pos, items, depth, k)
         == if items + k <= p.maxItems then Ok(Parsed(ZeroInts(k), pos + k, items + k))
            else Err(DecodeError(SizeExceeded, pos + (p.maxItems - items)))
    decreases k
  {
    hide DecodeItem;
    if k > 0 {
      ZerosDecode(p, data, pos, items, depth, k - 1);
      if items + k - 1 <= p.maxItems {
        OneZero(p, data, pos + k - 1, items + k - 1, depth);
        assert ZeroInts(k) == ZeroInts(k - 1) + [Int(0)];
      }
    }
  }

  lemma OneZero(p: Profile, data: seq<Byte>, pos: nat, items: nat, depth: nat)
    requires pos < |data| && data[pos] == 0 && depth <= p.maxDepth
    ensures DecodeItem(p, data, pos, items, depth)
         == if items + 1 > p.maxItems then Err(DecodeError(SizeExceeded, pos))
            else Ok(Parsed(Int(0), pos + 1, items + 1))
  {
  }

  /** Where the item line is: an array and its elements count, and the first element past the bound is refused. */
  lemma FlatItemLine(p: Profile, n: nat)
    requires p.maxDepth >= 1 && p.maxItems >= 1 && |FlatBytes(n)| < INT_LIMIT
    ensures Decode(p, FlatBytes(n))
         == if n + 1 <= p.maxItems then Ok(Array(ZeroInts(n)))
            else Err(DecodeError(SizeExceeded, |Head(4, n)| + p.maxItems - 1))
  {
    hide Head, ReadArg, At, DecodeItems;
    var data := FlatBytes(n);
    assert data[0..|data|] == data;
    AtStart(data);
    ReadHead(data, 0, 4, n, Zeros(n));
    var start := |Head(4, n)|;
    ZerosDecode(p, data, start, 1, 1, n);
    ArrayRead(p, data, Argument(n, start));
  }

  /** Behind an array head the input is what its items make it. */
  lemma ArrayRead(p: Profile, data: seq<Byte>, a: Argument)
    requires p.maxItems >= 1 && data != [] && data[0] / 32 == 4 && a.arg < INT_LIMIT
    requires ReadArg(data, 1, data[0] % 32, 0) == Ok(a)
    ensures DecodeItem(p, data, 0, 0, 0)
         == match DecodeItems(p, data, a.pos, 1, 1, a.arg)
            case Ok(r) => Ok(Parsed(Array(r.val), r.pos, r.items))
            case Err(e) => Err(e)
  {
    hide ReadArg, DecodeItems;
  }

  /** The map of keys 0 to `n` - 1, each over 0: its bytes, and its entries. */
  function FlatMapBytes(n: nat): seq<Byte>
    requires n < 24
  {
    [0xa0 + n] + seq(2 * n, i requires 0 <= i < 2 * n => if i % 2 == 0 then i / 2 else 0)
  }

  function FlatEntries(n: nat): seq<MapEntry> {
    seq(n, i => MapEntry(Int(i), Int(0)))
  }

  /** The state of the map loop before entry `k`. */
  function EntriesBefore(k: nat): Entries
    requires k < 25
  {
    Entries(FlatEntries(k), if k == 0 then [] else [k - 1])
  }

  lemma FlatEntriesGrow(n: nat)
    ensures FlatEntries(0) == []
    ensures n > 0 ==> FlatEntries(n) != [] && FlatEntries(n)[0].key == Int(0)
    ensures FlatEntries(n + 1) == FlatEntries(n) + [MapEntry(Int(n), Int(0))]
  {
  }

  lemma OneSmall(p: Profile, data: seq<Byte>, pos: nat, items: nat, depth: nat)
    requires pos < |data| && data[pos] < 24 && depth <= p.maxDepth
    ensures DecodeItem(p, data, pos, items, depth)
         == if items + 1 > p.maxItems then Err(DecodeError(SizeExceeded, pos))
            else Ok(Parsed(Int(data[pos]), pos + 1, items + 1))
  {
  }

  lemma {:induction false} EntriesDecode(p: Profile, n: nat, k: nat)
    requires k <= n < 24 && p.maxDepth >= 1 && p.maxItems >= 1
    ensures DecodeEntries(p, FlatMapBytes(n), 1, 1, 1, k)
         == if 1 + 2 * k <= p.maxItems then
              Ok(Parsed(EntriesBefore(k), 1 + 2 * k, 1 + 2 * k))
            else Err(DecodeError(SizeExceeded, p.maxItems))
  {
    hide DecodeEntry, FlatMapBytes, FlatEntries;
    if k > 0 {
      EntriesDecode(p, n, k - 1);
      if 2 * k - 1 <= p.maxItems {
        EntryStep(p, n, k - 1);
      }
    } else {
      FlatEntriesGrow(0);
    }
  }

  lemma FlatMapAt(n: nat, k: nat)
    requires k < n < 24
    ensures |FlatMapBytes(n)| == 2 * n + 1 && FlatMapBytes(n)[2 * k + 1..2 * k + 2] == [k]
    ensures FlatMapBytes(n)[2 * k + 1] == k && FlatMapBytes(n)[2 * k + 2] == 0
  {
  }

  /** Entry `k`, its key and its value at the positions of their own numbers. */
  lemma EntryStep(p: Profile, n: nat, k: nat)
    requires k < n < 24 && p.maxDepth >= 1 && 2 * k + 1 <= p.maxItems
    ensures DecodeEntry(p, FlatMapBytes(n), 2 * k + 1, 2 * k + 1, 1, EntriesBefore(k))
         == if 2 * k + 3 <= p.maxItems then
              Ok(Parsed(EntriesBefore(k + 1), 2 * k + 3, 2 * k + 3))
            else Err(DecodeError(SizeExceeded, p.maxItems))
  {
    hide DecodeItem, FlatMapBytes, FlatEntries;
    FlatEntriesGrow(k);
    FlatMapAt(n, k);
    var data, at := FlatMapBytes(n), 2 * k + 1;
    OneSmall(p, data, at, at, 1);
    if at + 1 <= p.maxItems {
      OneSmall(p, data, at + 1, at + 1, 1);
    }
    assert k > 0 ==> Compare([k - 1], [k]) == -1;
  }

  /** In a map the keys count as well as the values; every item here is the byte at its own number. */
  lemma FlatMapLine(p: Profile, n: nat)
    requires n < 24 && p.maxDepth >= 1
    ensures Decode(p, FlatMapBytes(n))
         == if 2 * n + 1 <= p.maxItems then Ok(Map(FlatEntries(n)))
            else Err(DecodeError(SizeExceeded, p.maxItems))
  {
    hide DecodeEntries;
    if p.maxItems >= 1 {
      EntriesDecode(p, n, n);
    }
  }

  /** At the declared bounds: 1048575 elements pass, and of 1048576 the last is refused. */
  lemma DeclaredItems(isNfc: seq<Byte> -> bool)
    ensures Decode(DeclaredProfile(isNfc), [0x9a, 0x00, 0x0f, 0xff, 0xff] + Zeros(1048575))
         == Ok(Array(ZeroInts(1048575)))
    ensures Decode(DeclaredProfile(isNfc), [0x9a, 0x00, 0x10, 0x00, 0x00] + Zeros(1048576))
         == Err(DecodeError(SizeExceeded, 1048580))
  {
    hide Decode, Zeros, ZeroInts;
    ShiftFourBytes(1048575);
    ShiftFourBytes(1048576);
    assert Head(4, 1048575) == [0x9a, 0x00, 0x0f, 0xff, 0xff];
    assert Head(4, 1048576) == [0x9a, 0x00, 0x10, 0x00, 0x00];
    hide Head;
    ZerosSize(1048575);
    ZerosSize(1048576);
    FlatItemLine(DeclaredProfile(isNfc), 1048575);
    FlatItemLine(DeclaredProfile(isNfc), 1048576);
  }

  lemma ZerosSize(n: nat)
    ensures |Zeros(n)| == n
  {
  }
}
