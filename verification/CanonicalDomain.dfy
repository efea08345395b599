/**
 The canonical domain, described without encoding anything, is exactly what `Encode`
 accepts; and what `Decode` accepts is exactly the bytes of that domain within the budget.
 */
module CanonicalDomain {
  import opened ByteOrder
  import opened Decoding
  import opened Encoding
  import opened EncodingFacts
  import opened Heads
  import opened Inverse
  import opened Limits
  import opened Magnitudes
  import opened NormalForm
  import opened Results
  import opened RoundTrip
  import opened Sorting
  import opened TextRules
  import opened Values

  predicate CanonicalText(p: Profile, s: seq<Byte>) {
    ValidUtf8(s) && !HasBom(s) && p.isNfc(s)
  }

  /** Every node within the depth bound, and every map keyed by distinct values of one key type. */
  ghost predicate Canonical(p: Profile, v: Value, depth: nat)
    decreases v
  {
    && depth <= p.maxDepth
    && match v
       case Int(n) => IntInRange(n)
       case Text(s) => CanonicalText(p, s)
       case Array(items) => forall i :: 0 <= i < |items| ==> Canonical(p, items[i], depth + 1)
       case Map(entries) =>
         && ((forall i :: 0 <= i < |entries| ==> entries[i].key.Int?)
             || (forall i :: 0 <= i < |entries| ==> entries[i].key.Text?))
         && (forall i, j :: 0 <= i < j < |entries| ==> entries[i].key != entries[j].key)
         && (forall i :: 0 <= i < |entries| ==> CanonicalEntry(p, entries[i], depth + 1))
       case Decimal(scale, mantissa) =>
         depth + 1 <= p.maxDepth && CheckDecimal(scale, mantissa).None? && IntInRange(scale) && IntInRange(mantissa)
       case Rational(num, den) =>
         depth + 1 <= p.maxDepth && CheckRational(num, den).None? && IntInRange(num) && IntInRange(den)
       case _ => true
  }

  ghost predicate CanonicalEntry(p: Profile, e: MapEntry, depth: nat)
    decreases e
  {
    Canonical(p, e.key, depth) && Canonical(p, e.value, depth)
  }

  // --------------------------------------------------- keys and their bytes

  /** Keys that are different values have different bytes. */
  lemma KeyBytesAreInjective(a: Value, b: Value)
    requires IsKey(a) && IsKey(b) && KeyBytes(a) == KeyBytes(b)
    requires a.Int? ==> IntInRange(a.n)
    requires b.Int? ==> IntInRange(b.n)
    ensures a == b
  {
    KeyMajor(a);
    KeyMajor(b);
    if a.Int? {
      IntBytesAreInjective(a.n, b.n);
    } else {
      TextBytesAreInjective(a.text, b.text);
    }
  }

  lemma KeyMajor(a: Value)
    requires IsKey(a)
    ensures KeyBytes(a) != [] && KeyBytes(a)[0] / 32 == if a.Text? then 3 else if a.n >= 0 then 0 else 1
  {
  }

  lemma IntBytesAreInjective(n: int, m: int)
    requires IntInRange(n) && IntInRange(m) && IntBytes(n) == IntBytes(m)
    ensures n == m
  {
    hide Head;
    var j, k := if n >= 0 then n else -1 - n, if m >= 0 then m else -1 - m;
    var major := if n >= 0 then 0 else 1;
    assert Head(major, j)[0] / 32 == IntBytes(m)[0] / 32;
    LessIsTotal(IntBytes(n), IntBytes(m));
    if j < k {
      HeadOrder(major, j, k);
    } else if k < j {
      HeadOrder(major, k, j);
    }
  }

  lemma TextBytesAreInjective(s: seq<Byte>, t: seq<Byte>)
    requires TextBytes(s) == TextBytes(t)
    ensures s == t
  {
    hide Head;
    HeadShape(3, |s|);
    HeadShape(3, |t|);
    assert Head(3, |s|)[0] == TextBytes(s)[0] == TextBytes(t)[0] == Head(3, |t|)[0];
    assert |s| == |t|;
    assert s == TextBytes(s)[|Head(3, |s|)|..];
    assert t == TextBytes(t)[|Head(3, |t|)|..];
  }

  // ------------------------------------------- Encode accepts the whole domain

  lemma {:induction false} EncodableIsCanonical(p: Profile, v: Value, depth: nat)
    ensures EncodeValue(p, v, depth).Ok? <==> Canonical(p, v, depth)
    decreases v
  {
    hide EncodeItems, EncodePairs, FinishMap, CanonicalEntry, CheckDecimal, CheckRational, ValidUtf8, HasBom, Head;
    match v {
      case Array(items) =>
        ItemsEncode(p, items, |items|, depth + 1);
        forall i | 0 <= i < |items|
          ensures EncodeValue(p, items[i], depth + 1).Ok? <==> Canonical(p, items[i], depth + 1)
        {
          EncodableIsCanonical(p, items[i], depth + 1);
        }
      case Map(entries) =>
        MapIsCanonical(p, entries, depth);
      case _ =>
    }
  }

  lemma {:induction false} EntryIsCanonical(p: Profile, keysAreText: bool, e: MapEntry, depth: nat)
    ensures EncodePair(p, keysAreText, e, depth).Ok?
       <==> IsKey(e.key) && e.key.Text? == keysAreText && CanonicalEntry(p, e, depth)
    decreases e
  {
    EncodableIsCanonical(p, e.key, depth);
    EncodableIsCanonical(p, e.value, depth);
  }

  /** All keys are of the first key's type: all integers, or all texts. */
  lemma OneKeyType(entries: seq<MapEntry>)
    ensures (forall i :: 0 <= i < |entries| ==> IsKey(entries[i].key) && entries[i].key.Text? == entries[0].key.Text?)
       <==> (forall i :: 0 <= i < |entries| ==> entries[i].key.Int?)
            || (forall i :: 0 <= i < |entries| ==> entries[i].key.Text?)
  {
  }

  lemma {:induction false} MapIsCanonical(p: Profile, entries: seq<MapEntry>, depth: nat)
    ensures EncodeValue(p, Map(entries), depth).Ok? <==> Canonical(p, Map(entries), depth)
    decreases entries
  {
    hide EncodePair, EncodePairs, FinishMap, CanonicalEntry;
    if depth <= p.maxDepth {
      forall i | 0 <= i < |entries|
        ensures EncodePair(p, entries[0].key.Text?, entries[i], depth + 1).Ok?
           <==> IsKey(entries[i].key) && entries[i].key.Text? == entries[0].key.Text?
                && CanonicalEntry(p, entries[i], depth + 1)
      {
        EntryIsCanonical(p, entries[0].key.Text?, entries[i], depth + 1);
      }
      PairsEncode(p, entries, |entries|, depth + 1);
      OneKeyType(entries);
      if EncodePairs(p, entries, |entries|, depth + 1).Ok? {
        var pairs := EncodePairs(p, entries, |entries|, depth + 1).value;
        DistinctValuesDistinctBytes(p, entries, depth + 1, pairs);
      }
    }
  }

  /** The duplicate test on sorted bytes decides whether the keys are pairwise different values. */
  lemma DistinctValuesDistinctBytes(p: Profile, entries: seq<MapEntry>, depth: nat, pairs: seq<Pair>)
    requires EncodePairs(p, entries, |entries|, depth) == Ok(pairs)
    ensures FinishMap(pairs).Ok?
       <==> forall i, j :: 0 <= i < j < |entries| ==> entries[i].key != entries[j].key
  {
    hide EncodeValue, KeyBytes, EncodePair, EncodePairs, HasDuplicate, Sort, Concat;
    PairsPointwise(p, entries, pairs, depth);
    PairKeys(p, entries, depth, pairs);
    KeysInRange(p, entries, depth, pairs);
    NoDuplicateIsStrict(pairs);
    forall i, j | 0 <= i < j < |entries|
      ensures entries[i].key == entries[j].key <==> pairs[i].key == pairs[j].key
    {
      if pairs[i].key == pairs[j].key {
        KeyBytesAreInjective(entries[i].key, entries[j].key);
      }
    }
  }

  lemma KeysInRange(p: Profile, entries: seq<MapEntry>, depth: nat, pairs: seq<Pair>)
    requires PairsOf(p, entries, depth, pairs)
    ensures forall i :: 0 <= i < |pairs| && entries[i].key.Int? ==> IntInRange(entries[i].key.n)
  {
    forall i | 0 <= i < |pairs| && entries[i].key.Int? ensures IntInRange(entries[i].key.n) {
      assert EncodePair(p, entries[0].key.Text?, entries[i], depth).Ok?;
      assert EncodeValue(p, entries[i].key, depth).Ok?;
    }
  }

  /** `Encode` succeeds exactly on the canonical domain. */
  lemma EncodeSucceedsOnDomain(p: Profile, v: Value)
    ensures Encode(p, v).Ok? <==> Canonical(p, v, 0)
  {
    EncodableIsCanonical(p, v, 0);
  }

  // -------------------------------------- Decode returns normal values, counted

  lemma {:induction false} DecodedIsNormal(p: Profile, data: seq<Byte>, pos: nat, items: nat, depth: nat)
    requires pos <= |data| && DecodeItem(p, data, pos, items, depth).Ok?
    ensures var r := DecodeItem(p, data, pos, items, depth).value;
            Normal(r.val) && r.items == items + Count(r.val)
    decreases |data| - pos, 0, 0
  {
    hide ReadArg, ValidateText, TakeBytes, DecodeItems, DecodeEntries, AscendingKeys, NormalEntry;
    var r := DecodeItem(p, data, pos, items, depth).value;
    var major, ai := data[pos] / 32, data[pos] % 32;
    if major == 4 {
      var a := ReadArg(data, pos + 1, ai, pos).value;
      DecodedItemsAreNormal(p, data, a.pos, items + 1, depth + 1, a.arg);
    } else if major == 5 {
      var a := ReadArg(data, pos + 1, ai, pos).value;
      DecodedEntriesAreNormal(p, data, a.pos, items + 1, depth + 1, a.arg);
      var pairs := EntriesInverse(p, data, a.pos, items + 1, depth + 1, a.arg);
      PairsAscend(p, r.val.entries, depth + 1, pairs);
    }
  }

  lemma PairsAscend(p: Profile, entries: seq<MapEntry>, depth: nat, pairs: seq<Pair>)
    requires |pairs| == |entries| && PairsOf(p, entries, depth, pairs) && StrictlySorted(pairs)
    ensures AscendingKeys(entries)
  {
    PairKeys(p, entries, depth, pairs);
    forall i, j | 0 <= i < j < |entries| ensures Less(KeyBytes(entries[i].key), KeyBytes(entries[j].key)) {
      assert Less(pairs[i].key, pairs[j].key);
    }
  }

  lemma {:induction false} DecodedItemsAreNormal(
      p: Profile, data: seq<Byte>, pos: nat, items: nat, depth: nat, k: nat)
    requires pos <= |data| && DecodeItems(p, data, pos, items, depth, k).Ok?
    ensures var r := DecodeItems(p, data, pos, items, depth, k).value;
            && (forall i :: 0 <= i < k ==> Normal(r.val[i]))
            && r.items == items + CountItems(r.val, k)
    decreases |data| - pos, 1, k
  {
    hide DecodeItem, Normal, Count;
    if k > 0 {
      var front := DecodeItems(p, data, pos, items, depth, k - 1).value;
      var r := DecodeItems(p, data, pos, items, depth, k).value;
      DecodedItemsAreNormal(p, data, pos, items, depth, k - 1);
      DecodedIsNormal(p, data, front.pos, front.items, depth);
      assert r.val[..k - 1] == front.val;
      CountItemsAlike(front.val, r.val, k - 1);
    }
  }

  lemma {:induction false} CountItemsAlike(a: seq<Value>, b: seq<Value>, k: nat)
    requires k <= |a| && k <= |b| && forall i :: 0 <= i < k ==> a[i] == b[i]
    ensures CountItems(a, k) == CountItems(b, k)
  {
    if k > 0 {
      CountItemsAlike(a, b, k - 1);
    }
  }

  lemma {:induction false} CountEntriesAlike(a: seq<MapEntry>, b: seq<MapEntry>, k: nat)
    requires k <= |a| && k <= |b| && forall i :: 0 <= i < k ==> a[i] == b[i]
    ensures CountEntries(a, k) == CountEntries(b, k)
  {
    if k > 0 {
      CountEntriesAlike(a, b, k - 1);
    }
  }

  lemma {:induction false} DecodedEntriesAreNormal(
      p: Profile, data: seq<Byte>, pos: nat, items: nat, depth: nat, k: nat)
    requires pos <= |data| && DecodeEntries(p, data, pos, items, depth, k).Ok?
    ensures var r := DecodeEntries(p, data, pos, items, depth, k).value;
            && (forall i :: 0 <= i < k ==> NormalEntry(r.val.entries[i]))
            && r.items == items + CountEntries(r.val.entries, k)
    decreases |data| - pos, 1, k
  {
    hide DecodeItem, Normal, Count;
    if k > 0 {
      var front := DecodeEntries(p, data, pos, items, depth, k - 1).value;
      var r := DecodeEntries(p, data, pos, items, depth, k).value;
      var key := DecodeItem(p, data, front.pos, front.items, depth).value;
      DecodedEntriesAreNormal(p, data, pos, items, depth, k - 1);
      DecodedIsNormal(p, data, front.pos, front.items, depth);
      DecodedIsNormal(p, data, key.pos, key.items, depth);
      assert r.val.entries[..k - 1] == front.val.entries;
      CountEntriesAlike(front.val.entries, r.val.entries, k - 1);
    }
  }

  /** What `Decode` returns is canonical, in normal form, and within the budget. */
  lemma DecodeReturnsCanonical(p: Profile, data: seq<Byte>)
    requires Decode(p, data).Ok?
    ensures var v := Decode(p, data).value;
            Canonical(p, v, 0) && Normal(v) && Count(v) <= p.maxItems
  {
    DecodeThenEncode(p, data);
    EncodeSucceedsOnDomain(p, Decode(p, data).value);
    DecodedIsNormal(p, data, 0, 0, 0);
    ItemsWithinBudget(p, data, 0, 0, 0);
  }

  /**
   The rejecting decoder and the sorting encoder agree on one language: a byte string is
   accepted exactly when it is the encoding of some value the item budget covers.
   */
  lemma OneLanguage(p: Profile, data: seq<Byte>)
    requires |data| < INT_LIMIT
    ensures Decode(p, data).Ok? <==> exists v :: Encode(p, v) == Ok(data) && Count(v) <= p.maxItems
  {
    if Decode(p, data).Ok? {
      DecodeThenEncode(p, data);
      DecodeReturnsCanonical(p, data);
    }
    if v :| Encode(p, v) == Ok(data) && Count(v) <= p.maxItems {
      EncodeThenDecode(p, v);
    }
  }

  /**
   What the limits decide, exactly: an input accepted under larger bounds is accepted under
   smaller ones just when its value nests within the depth and counts within the items.
   */
  lemma LimitsDecideExactly(p: Profile, q: Profile, data: seq<Byte>)
    requires Wider(p, q) && |data| < INT_LIMIT && Decode(q, data).Ok?
    ensures var v := Decode(q, data).value;
            Decode(p, data) == Ok(v) <==> Canonical(p, v, 0) && Count(v) <= p.maxItems
  {
    hide DecodeItem, EncodeValue, Canonical, Normal, Norm;
    var v := Decode(q, data).value;
    DecodeThenEncode(q, data);
    DecodeReturnsCanonical(q, data);
    EncodeSucceedsOnDomain(p, v);
    if Decode(p, data) == Ok(v) {
      DecodeReturnsCanonical(p, data);
    }
    if Canonical(p, v, 0) && Count(v) <= p.maxItems {
      EncodeKeeps(p, q, v, 0);
      EncodeThenDecode(p, v);
      NormalIsFixed(v);
    }
  }
}
