/** The function the encoder computes: the canonical bytes of a value, or why it has none (cbor/encode.go). */
module Encoding {
  import opened ByteOrder
  import opened Errors
  import opened Heads
  import opened Magnitudes
  import opened Results
  import opened Sorting
  import opened TextRules
  import opened Values

  type Pair = Keyed<seq<Byte>>
  type Encoded = Result<seq<Byte>, EncodeError>

  function Encode(p: Profile, v: Value): Encoded {
    EncodeValue(p, v, 0)
  }

  function EncodeValue(p: Profile, v: Value, depth: nat): Encoded
    decreases v
  {
    if depth > p.maxDepth then Err(NestingTooDeep)
    else
      match v
      case Int(n) => EncodeInt(n)
      case Bytes(b) => Ok(Head(2, |b|) + b)
      case Text(s) => EncodeText(p, s)
      case Bool(flag) => Ok(if flag then [0xf5] else [0xf4])
      case Array(items) =>
        var body :- EncodeItems(p, items, |items|, depth + 1);
        Ok(Head(4, |items|) + body)
      case Map(entries) =>
        var pairs :- EncodePairs(p, entries, |entries|, depth + 1);
        FinishMap(pairs)
      case Decimal(scale, mantissa) =>
        var bad := CheckDecimal(scale, mantissa);
        if bad.Some? then Err(bad.value) else EncodeIntPair(p, scale, mantissa, depth)
      case Rational(num, den) =>
        var bad := CheckRational(num, den);
        if bad.Some? then Err(bad.value) else EncodeIntPair(p, num, den, depth)
  }

  /** The canonical bytes of an integer in range; meaningless outside it. */
  function IntBytes(n: int): seq<Byte> {
    if n >= 0 then Head(0, n) else Head(1, -1 - n)
  }

  predicate IntInRange(n: int) {
    -UINT64_LIMIT <= n < UINT64_LIMIT
  }

  function EncodeInt(n: int): Encoded {
    if IntInRange(n) then Ok(IntBytes(n))
    else if n >= 0 then Err(IntegerTooLarge)
    else Err(IntegerTooSmall)
  }

  function TextBytes(s: seq<Byte>): seq<Byte> {
    Head(3, |s|) + s
  }

  function EncodeText(p: Profile, s: seq<Byte>): Encoded {
    var bad := ValidateText(s, p.isNfc);
    if bad.Some? then Err(bad.value) else Ok(TextBytes(s))
  }

  function EncodeIntPair(p: Profile, a: int, b: int, depth: nat): Encoded {
    if depth + 1 > p.maxDepth then Err(NestingTooDeep)
    else
      var x :- EncodeInt(a);
      var y :- EncodeInt(b);
      Ok(Head(4, 2) + x + y)
  }

  /** The first `k` items, one behind the other. */
  function EncodeItems(p: Profile, items: seq<Value>, k: nat, depth: nat): Encoded
    requires k <= |items|
    decreases items, k
  {
    if k == 0 then Ok([])
    else
      var front :- EncodeItems(p, items, k - 1, depth);
      var last :- EncodeValue(p, items[k - 1], depth);
      Ok(front + last)
  }

  /** A key is an integer or a text, and of the type the first key fixed. */
  function CheckKey(keysAreText: bool, key: Value): Option<EncodeError> {
    if !key.Int? && !key.Text? then Some(BadKey)
    else if key.Text? != keysAreText then Some(MixedKeys)
    else None
  }

  function EncodePair(p: Profile, keysAreText: bool, e: MapEntry, depth: nat): Result<Pair, EncodeError>
    decreases e
  {
    var bad := CheckKey(keysAreText, e.key);
    if bad.Some? then Err(bad.value)
    else
      var kb :- EncodeValue(p, e.key, depth);
      var vb :- EncodeValue(p, e.value, depth);
      Ok(Keyed(kb, vb))
  }

  /** The first `k` entries as encoded key and value, in authored order. */
  function EncodePairs(p: Profile, entries: seq<MapEntry>, k: nat, depth: nat)
    : (r: Result<seq<Pair>, EncodeError>)
    requires k <= |entries|
    ensures r.Ok? ==> |r.value| == k
    decreases entries, k
  {
    if k == 0 then Ok([])
    else
      var front :- EncodePairs(p, entries, k - 1, depth);
      var last :- EncodePair(p, entries[0].key.Text?, entries[k - 1], depth);
      Ok(front + [last])
  }

  /** The encoder's duplicate test: two neighbours, after sorting, with one key. */
  predicate HasDuplicate(pairs: seq<Pair>) {
    exists i :: 1 <= i < |pairs| && pairs[i - 1].key == pairs[i].key
  }

  /** Sorts the pairs, refuses a duplicate, and writes the map. */
  function FinishMap(pairs: seq<Pair>): Encoded {
    var sorted := Sort(pairs);
    if HasDuplicate(sorted) then Err(DuplicateKey)
    else Ok(Head(5, |pairs|) + Concat(sorted, |sorted|))
  }

  /** The first `k` pairs, each key followed by its value. */
  function Concat(pairs: seq<Pair>, k: nat): seq<Byte>
    requires k <= |pairs|
  {
    if k == 0 then [] else Concat(pairs, k - 1) + pairs[k - 1].key + pairs[k - 1].val
  }

  /** A refusal met part way through the items or the pairs is the refusal of the whole. */
  lemma {:induction false} ItemRefusalStands(p: Profile, items: seq<Value>, j: nat, k: nat, depth: nat)
    requires j <= k <= |items|
    requires EncodeItems(p, items, j, depth).Err?
    ensures EncodeItems(p, items, k, depth) == EncodeItems(p, items, j, depth)
    decreases k - j
  {
    if j < k {
      ItemRefusalStands(p, items, j, k - 1, depth);
    }
  }

  lemma {:induction false} PairRefusalStands(p: Profile, entries: seq<MapEntry>, j: nat, k: nat, depth: nat)
    requires j <= k <= |entries|
    requires EncodePairs(p, entries, j, depth).Err?
    ensures EncodePairs(p, entries, k, depth) == EncodePairs(p, entries, j, depth)
    decreases k - j
  {
    if j < k {
      PairRefusalStands(p, entries, j, k - 1, depth);
    }
  }
}
