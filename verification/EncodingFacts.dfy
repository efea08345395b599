/** Pointwise views of the encoder's loops, shared by the theorems about it. */
module EncodingFacts {
  import opened ByteOrder
  import opened Encoding
  import opened Results
  import opened Sorting
  import opened Values

  /** The canonical bytes of a map key; keys are integers or texts. */
  function KeyBytes(key: Value): seq<Byte> {
    match key
    case Int(n) => IntBytes(n)
    case Text(s) => TextBytes(s)
    case _ => []
  }

  predicate IsKey(v: Value) {
    v.Int? || v.Text?
  }

  lemma KeyEncoding(p: Profile, key: Value, depth: nat)
    requires IsKey(key) && EncodeValue(p, key, depth).Ok?
    ensures EncodeValue(p, key, depth) == Ok(KeyBytes(key))
  {
  }

  lemma {:induction false} ItemsAlike(p: Profile, a: seq<Value>, b: seq<Value>, k: nat, depth: nat)
    requires k <= |a| && k <= |b|
    requires forall i :: 0 <= i < k ==> EncodeValue(p, a[i], depth) == EncodeValue(p, b[i], depth)
    ensures EncodeItems(p, a, k, depth) == EncodeItems(p, b, k, depth)
  {
    if k > 0 {
      ItemsAlike(p, a, b, k - 1, depth);
    }
  }

  lemma {:induction false} ItemsPrefix(p: Profile, a: seq<Value>, b: seq<Value>, k: nat, depth: nat)
    requires k <= |a| && k <= |b| && a[..k] == b[..k]
    ensures EncodeItems(p, a, k, depth) == EncodeItems(p, b, k, depth)
  {
    forall i | 0 <= i < k ensures a[i] == b[i] {
      assert a[..k][i] == b[..k][i];
    }
    ItemsAlike(p, a, b, k, depth);
  }

  lemma {:induction false} ItemsEncode(p: Profile, items: seq<Value>, k: nat, depth: nat)
    requires k <= |items|
    ensures EncodeItems(p, items, k, depth).Ok?
       <==> forall i :: 0 <= i < k ==> EncodeValue(p, items[i], depth).Ok?
  {
    hide EncodeValue;
    if k > 0 {
      ItemsEncode(p, items, k - 1, depth);
    }
  }

  lemma ArrayAlike(p: Profile, a: seq<Value>, b: seq<Value>, depth: nat)
    requires |a| == |b|
    requires forall i :: 0 <= i < |a| ==> EncodeValue(p, a[i], depth + 1) == EncodeValue(p, b[i], depth + 1)
    ensures EncodeValue(p, Array(a), depth) == EncodeValue(p, Array(b), depth)
  {
    ItemsAlike(p, a, b, |a|, depth + 1);
  }

  lemma ArrayParts(p: Profile, items: seq<Value>, depth: nat)
    requires EncodeValue(p, Array(items), depth).Ok?
    ensures forall i :: 0 <= i < |items| ==> EncodeValue(p, items[i], depth + 1).Ok?
  {
    ItemsEncode(p, items, |items|, depth + 1);
  }

  /** `pairs` are the first entries of the map, encoded one by one under one key type. */
  ghost predicate PairsOf(p: Profile, entries: seq<MapEntry>, depth: nat, pairs: seq<Pair>) {
    && |pairs| <= |entries|
    && forall i :: 0 <= i < |pairs| ==> EncodePair(p, entries[0].key.Text?, entries[i], depth) == Ok(pairs[i])
  }

  lemma {:induction false} PairsPointwise(p: Profile, entries: seq<MapEntry>, pairs: seq<Pair>, depth: nat)
    requires |pairs| <= |entries|
    ensures EncodePairs(p, entries, |pairs|, depth) == Ok(pairs) <==> PairsOf(p, entries, depth, pairs)
  {
    if pairs != [] {
      var n := |pairs| - 1;
      PairsPointwise(p, entries, pairs[..n], depth);
      assert pairs == pairs[..n] + [pairs[n]];
      if PairsOf(p, entries, depth, pairs) {
        assert PairsOf(p, entries, depth, pairs[..n]);
      }
      if EncodePairs(p, entries, n + 1, depth) == Ok(pairs) {
        var front := EncodePairs(p, entries, n, depth).value;
        assert front == (front + [pairs[n]])[..n] == pairs[..n];
      }
    }
  }

  lemma {:induction false} PairsEncode(p: Profile, entries: seq<MapEntry>, k: nat, depth: nat)
    requires k <= |entries|
    ensures EncodePairs(p, entries, k, depth).Ok?
       <==> forall i :: 0 <= i < k ==> EncodePair(p, entries[0].key.Text?, entries[i], depth).Ok?
  {
    hide EncodePair;
    if k > 0 {
      PairsEncode(p, entries, k - 1, depth);
    }
  }

  lemma PairKey(p: Profile, keysAreText: bool, e: MapEntry, depth: nat)
    requires EncodePair(p, keysAreText, e, depth).Ok?
    ensures IsKey(e.key) && e.key.Text? == keysAreText
    ensures EncodePair(p, keysAreText, e, depth).value.key == KeyBytes(e.key)
  {
    KeyEncoding(p, e.key, depth);
  }

  lemma PairKeys(p: Profile, entries: seq<MapEntry>, depth: nat, pairs: seq<Pair>)
    requires PairsOf(p, entries, depth, pairs)
    ensures forall i :: 0 <= i < |pairs| ==> IsKey(entries[i].key) && pairs[i].key == KeyBytes(entries[i].key)
    ensures forall i :: 0 <= i < |pairs| ==> entries[i].key.Text? == entries[0].key.Text?
  {
    forall i | 0 <= i < |pairs|
      ensures IsKey(entries[i].key) && pairs[i].key == KeyBytes(entries[i].key)
      ensures entries[i].key.Text? == entries[0].key.Text?
    {
      PairKey(p, entries[0].key.Text?, entries[i], depth);
    }
  }

  /** The pairs an encodable map is sorted as. */
  lemma PairsOfMap(p: Profile, entries: seq<MapEntry>, depth: nat) returns (pairs: seq<Pair>)
    requires EncodeValue(p, Map(entries), depth).Ok?
    ensures depth <= p.maxDepth
    ensures |pairs| == |entries| && PairsOf(p, entries, depth + 1, pairs)
    ensures EncodeValue(p, Map(entries), depth) == FinishMap(pairs) && !HasDuplicate(Sort(pairs))
  {
    pairs := EncodePairs(p, entries, |entries|, depth + 1).value;
    PairsPointwise(p, entries, pairs, depth + 1);
  }

  lemma MapOfPairs(p: Profile, entries: seq<MapEntry>, depth: nat, pairs: seq<Pair>)
    requires depth <= p.maxDepth
    requires |pairs| == |entries| && PairsOf(p, entries, depth + 1, pairs)
    ensures EncodeValue(p, Map(entries), depth) == FinishMap(pairs)
  {
    PairsPointwise(p, entries, pairs, depth + 1);
  }

  lemma {:induction false} ConcatAlike(a: seq<Pair>, b: seq<Pair>, k: nat)
    requires k <= |a| && k <= |b| && a[..k] == b[..k]
    ensures Concat(a, k) == Concat(b, k)
  {
    if k > 0 {
      assert a[..k - 1] == a[..k][..k - 1] == b[..k - 1];
      assert a[k - 1] == a[..k][k - 1] == b[k - 1];
      ConcatAlike(a, b, k - 1);
    }
  }

  lemma ConcatStep(before: seq<Pair>, pair: Pair)
    ensures Concat(before + [pair], |before| + 1) == Concat(before, |before|) + (pair.key + pair.val)
  {
    ConcatAlike(before, before + [pair], |before|);
  }

  lemma NoDuplicateIsStrict(pairs: seq<Pair>)
    ensures !HasDuplicate(Sort(pairs)) <==> DistinctKeys(pairs)
    ensures !HasDuplicate(Sort(pairs)) <==> StrictlySorted(Sort(pairs))
  {
    DuplicateTestIsExact(pairs);
    SortIsSorted(pairs);
    AdjacentMakesStrict(Sort(pairs));
    assert HasDuplicate(Sort(pairs)) <==> !AdjacentDistinct(Sort(pairs));
  }

  /** A map is never shorter than two bytes an entry, nor an array than one byte an item. */
  lemma EncodingIsNotEmpty(p: Profile, v: Value, depth: nat)
    requires EncodeValue(p, v, depth).Ok?
    ensures |EncodeValue(p, v, depth).value| >= 1
  {
  }

  lemma {:induction false} ItemsFillBytes(p: Profile, items: seq<Value>, k: nat, depth: nat)
    requires k <= |items| && EncodeItems(p, items, k, depth).Ok?
    ensures |EncodeItems(p, items, k, depth).value| >= k
  {
    if k > 0 {
      ItemsFillBytes(p, items, k - 1, depth);
      EncodingIsNotEmpty(p, items[k - 1], depth);
    }
  }

  lemma {:induction false} PairsFillBytes(pairs: seq<Pair>, k: nat)
    requires k <= |pairs| && forall i :: 0 <= i < k ==> |pairs[i].key| >= 1
    ensures |Concat(pairs, k)| >= k
  {
    if k > 0 {
      PairsFillBytes(pairs, k - 1);
    }
  }
}
