/**
 The wire form in digits (RFC 8949, sections 3 and 3.1): which first bytes each type is written
 with, and the bytes of a head for every argument.
 */
module WireForm {
  import opened ByteOrder
  import opened Decoding
  import opened Encoding
  import opened EncodingFacts
  import opened Errors
  import opened Heads
  import opened Inverse
  import opened Results
  import opened RoundTrip
  import opened Shifts
  import opened Sorting
  import opened Values

  /** The first byte of a value's encoding lies in the range of its type. */
  lemma FirstByteTellsType(p: Profile, v: Value, depth: nat)
    requires EncodeValue(p, v, depth).Ok?
    ensures EncodeValue(p, v, depth).value != []
    ensures var b := EncodeValue(p, v, depth).value[0];
            match v
            case Int(n) => if n >= 0 then 0x00 <= b <= 0x1b else 0x20 <= b <= 0x3b
            case Bytes(_) => 0x40 <= b <= 0x5b
            case Text(_) => 0x60 <= b <= 0x7b
            case Array(_) => 0x80 <= b <= 0x9b
            case Map(_) => 0xa0 <= b <= 0xbb
            case Bool(flag) => EncodeValue(p, v, depth).value == [if flag then 0xf5 else 0xf4]
            case Decimal(_, _) => b == 0x82
            case Rational(_, _) => b == 0x82
  {
    hide EncodeItems, EncodePairs, Concat;
  }

  /** The two booleans on the wire. */
  lemma BooleanBytes(p: Profile)
    requires p.maxItems >= 1
    ensures Decode(p, [0xf4]) == Ok(Bool(false)) && Decode(p, [0xf5]) == Ok(Bool(true))
  {
  }

  /** A head in bytes: the argument in the first byte below 24, else in 1, 2, 4 or 8 bytes behind it. */
  lemma HeadBytes(major: nat, arg: nat)
    requires major < 8 && arg < 0x1_0000_0000_0000_0000
    ensures arg <= 23 ==> Head(major, arg) == [major * 32 + arg]
    ensures 24 <= arg <= 0xff ==> Head(major, arg) == [major * 32 + 24, arg]
    ensures 0x100 <= arg <= 0xffff ==> Head(major, arg) == [major * 32 + 25, arg / 0x100, arg % 0x100]
    ensures 0x1_0000 <= arg <= 0xffff_ffff ==>
              Head(major, arg) == [major * 32 + 26, arg / 0x100_0000, arg / 0x1_0000 % 0x100,
                                   arg / 0x100 % 0x100, arg % 0x100]
    ensures 0x1_0000_0000 <= arg ==>
              Head(major, arg) == [major * 32 + 27, arg / 0x100_0000_0000_0000, arg / 0x1_0000_0000_0000 % 0x100,
                                   arg / 0x100_0000_0000 % 0x100, arg / 0x1_0000_0000 % 0x100,
                                   arg / 0x100_0000 % 0x100, arg / 0x1_0000 % 0x100,
                                   arg / 0x100 % 0x100, arg % 0x100]
  {
    hide BigEndian;
    if arg <= 0xffff {
      ShiftTwoBytes(arg);
    } else if arg <= 0xffff_ffff {
      ShiftFourBytes(arg);
    } else {
      ShiftEightBytes(arg);
    }
  }

  /** Integers on the wire, and the ends of their range. */
  lemma IntegerBytes(p: Profile, n: int)
    ensures Encode(p, Int(n))
         == if n >= 0x1_0000_0000_0000_0000 then Err(IntegerTooLarge)
            else if n >= 0 then Ok(Head(0, n))
            else if n >= -0x1_0000_0000_0000_0000 then Ok(Head(1, -1 - n))
            else Err(IntegerTooSmall)
  {
  }

  /** The integers a decoder returns for a head of major type 0 or 1 that is the whole input. */
  lemma IntegerRead(p: Profile, n: int)
    requires p.maxItems >= 1 && -0x1_0000_0000_0000_0000 <= n < 0x1_0000_0000_0000_0000
    ensures Decode(p, if n >= 0 then Head(0, n) else Head(1, -1 - n)) == Ok(Int(n))
  {
    hide Head, Decode;
    EncodeThenDecode(p, Int(n));
  }

  /** A byte string on the wire: its head, then its bytes as they are. */
  lemma StringBytes(p: Profile, b: seq<Byte>)
    requires |Head(2, |b|) + b| < INT_LIMIT
    ensures Encode(p, Bytes(b)) == Ok(Head(2, |b|) + b)
    ensures p.maxItems >= 1 ==> Decode(p, Head(2, |b|) + b) == Ok(Bytes(b))
  {
    hide Decode, Head;
    if p.maxItems >= 1 {
      EncodeThenDecode(p, Bytes(b));
    }
  }

  /** The first `k` parts, one behind the other. */
  function Joined(parts: seq<seq<Byte>>, k: nat): seq<Byte>
    requires k <= |parts|
  {
    if k == 0 then [] else Joined(parts, k - 1) + parts[k - 1]
  }

  /** An array on the wire: its head, then the bytes of its items, first to last. */
  lemma ArrayBytes(p: Profile, items: seq<Value>, parts: seq<seq<Byte>>, depth: nat)
    requires depth <= p.maxDepth && |parts| == |items|
    requires forall i :: 0 <= i < |items| ==> EncodeValue(p, items[i], depth + 1) == Ok(parts[i])
    ensures EncodeValue(p, Array(items), depth) == Ok(Head(4, |items|) + Joined(parts, |parts|))
  {
    hide Head, EncodeItems;
    ItemsJoin(p, items, parts, |items|, depth + 1);
  }

  lemma {:induction false} ItemsJoin(p: Profile, items: seq<Value>, parts: seq<seq<Byte>>, k: nat, depth: nat)
    requires k <= |parts| == |items|
    requires forall i :: 0 <= i < |items| ==> EncodeValue(p, items[i], depth) == Ok(parts[i])
    ensures EncodeItems(p, items, k, depth) == Ok(Joined(parts, k))
  {
    hide EncodeValue;
    if k > 0 {
      ItemsJoin(p, items, parts, k - 1, depth);
    }
  }

  /**
   A map on the wire, when its encoded keys ascend: its head, then each key followed by its value,
   first to last. Any other map has the bytes of its entries put in that order.
   */
  lemma MapBytes(p: Profile, entries: seq<MapEntry>, parts: seq<seq<Byte>>, depth: nat)
    requires depth <= p.maxDepth && |parts| == 2 * |entries|
    requires forall i :: 0 <= i < |entries| ==> IsKey(entries[i].key) && entries[i].key.Text? == entries[0].key.Text?
    requires forall i :: 0 <= i < |entries| ==> EncodeValue(p, entries[i].key, depth + 1) == Ok(parts[2 * i])
    requires forall i :: 0 <= i < |entries| ==> EncodeValue(p, entries[i].value, depth + 1) == Ok(parts[2 * i + 1])
    requires forall i, j :: 0 <= i < j < |entries| ==> Less(parts[2 * i], parts[2 * j])
    ensures EncodeValue(p, Map(entries), depth) == Ok(Head(5, |entries|) + Joined(parts, |parts|))
  {
    hide EncodeValue, Head, Less, Concat;
    var pairs := seq(|entries|, i requires 0 <= i < |entries| => Keyed(parts[2 * i], parts[2 * i + 1]));
    MapInverse(p, entries, depth, pairs);
    PairsJoin(pairs, parts, |pairs|);
  }

  lemma {:induction false} PairsJoin(pairs: seq<Pair>, parts: seq<seq<Byte>>, k: nat)
    requires k <= |pairs| && |parts| == 2 * |pairs|
    requires forall i :: 0 <= i < |pairs| ==> pairs[i] == Keyed(parts[2 * i], parts[2 * i + 1])
    ensures Concat(pairs, k) == Joined(parts, 2 * k)
  {
    hide Joined;
    if k == 0 {
      NoneJoined(parts);
    } else {
      PairsJoin(pairs, parts, k - 1);
      TwoJoined(parts, 2 * (k - 1));
      assert pairs[k - 1] == Keyed(parts[2 * (k - 1)], parts[2 * (k - 1) + 1]);
    }
  }

  lemma NoneJoined(parts: seq<seq<Byte>>)
    ensures Joined(parts, 0) == []
  {
  }

  lemma TwoJoined(parts: seq<seq<Byte>>, k: nat)
    requires k + 2 <= |parts|
    ensures Joined(parts, k + 2) == Joined(parts, k) + parts[k] + parts[k + 1]
  {
    assert Joined(parts, k + 2) == Joined(parts, k + 1) + parts[k + 1];
  }
}
