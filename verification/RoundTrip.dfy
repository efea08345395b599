/**
 Value round trip: the bytes the encoder writes decode to the normal form of the value, as
 long as the item budget covers it; and equal bytes mean equal normal forms.
 */
module RoundTrip {
  import opened ByteOrder
  import opened Decoding
  import opened Encoding
  import opened EncodingFacts
  import opened Errors
  import opened Heads
  import opened Limits
  import opened NormalForm
  import opened Results
  import opened Sorting
  import opened Values

  /** `bytes` stand at `pos`. */
  ghost predicate At(data: seq<Byte>, pos: nat, bytes: seq<Byte>) {
    pos + |bytes| <= |data| && data[pos..pos + |bytes|] == bytes
  }

  lemma AtFits(data: seq<Byte>, pos: nat, bytes: seq<Byte>)
    requires At(data, pos, bytes)
    ensures pos + |bytes| <= |data|
  {
  }

  lemma AtParts(data: seq<Byte>, pos: nat, a: seq<Byte>, b: seq<Byte>)
    requires At(data, pos, a + b)
    ensures At(data, pos, a) && At(data, pos + |a|, b)
  {
    var whole := data[pos..pos + |a + b|];
    assert data[pos..pos + |a|] == whole[..|a|] == a;
    assert data[pos + |a|..pos + |a| + |b|] == whole[|a|..] == b;
  }

  lemma ReadHead(data: seq<Byte>, pos: nat, major: nat, arg: nat, body: seq<Byte>)
    requires major < 8 && arg < UINT64_LIMIT && At(data, pos, Head(major, arg) + body)
    ensures data[pos] / 32 == major
    ensures ReadArg(data, pos + 1, data[pos] % 32, pos) == Ok(Argument(arg, pos + |Head(major, arg)|))
    ensures At(data, pos + |Head(major, arg)|, body)
  {
    AtParts(data, pos, Head(major, arg), body);
    ReadWrittenHead(data, pos, major, arg);
    HeadShape(major, arg);
  }

  /** A normal value is read back from its own bytes, wherever they stand. */
  lemma {:induction false} ReadBack(
      p: Profile, v: Value, depth: nat, bytes: seq<Byte>, data: seq<Byte>, pos: nat, items: nat)
    requires Normal(v) && EncodeValue(p, v, depth) == Ok(bytes)
    requires At(data, pos, bytes) && |data| < INT_LIMIT
    requires items + Count(v) <= p.maxItems
    ensures DecodeItem(p, data, pos, items, depth) == Ok(Parsed(v, pos + |bytes|, items + Count(v)))
    decreases v
  {
    hide EncodeValue, DecodeItem, At;
    match v {
      case Array(vs) =>
        ReadBackArray(p, vs, depth, bytes, data, pos, items);
      case Map(entries) =>
        ReadBackMap(p, entries, depth, bytes, data, pos, items);
      case _ =>
        ReadBackLeaf(p, v, depth, bytes, data, pos, items);
    }
  }

  lemma ReadBackLeaf(p: Profile, v: Value, depth: nat, bytes: seq<Byte>, data: seq<Byte>, pos: nat, items: nat)
    requires v.Int? || v.Bytes? || v.Text? || v.Bool?
    requires EncodeValue(p, v, depth) == Ok(bytes)
    requires At(data, pos, bytes) && |data| < INT_LIMIT
    requires items < p.maxItems
    ensures DecodeItem(p, data, pos, items, depth) == Ok(Parsed(v, pos + |bytes|, items + 1))
  {
    hide ReadArg, Head, At;
    AtFits(data, pos, bytes);
    match v {
      case Int(n) =>
        assert bytes + [] == bytes;
        if n >= 0 {
          ReadHead(data, pos, 0, n, []);
        } else {
          ReadHead(data, pos, 1, -1 - n, []);
        }
      case Bytes(b) =>
        ReadBackString(p, v, depth, b, data, pos, items);
      case Text(s) =>
        ReadBackString(p, v, depth, s, data, pos, items);
      case Bool(flag) =>
        AtSlice(data, pos, bytes);
        assert data[pos] == data[pos..pos + 1][0];
    }
  }

  lemma ReadBackString(p: Profile, v: Value, depth: nat, b: seq<Byte>, data: seq<Byte>, pos: nat, items: nat)
    requires v == Bytes(b) || v == Text(b)
    requires EncodeValue(p, v, depth) == Ok(Head(if v.Bytes? then 2 else 3, |b|) + b)
    requires At(data, pos, EncodeValue(p, v, depth).value) && |data| < INT_LIMIT
    requires items < p.maxItems
    ensures DecodeItem(p, data, pos, items, depth)
         == Ok(Parsed(v, pos + |EncodeValue(p, v, depth).value|, items + 1))
  {
    hide ReadArg, Head, At;
    var major := if v.Bytes? then 2 else 3;
    AtFits(data, pos, Head(major, |b|) + b);
    ReadHead(data, pos, major, |b|, b);
    AtSlice(data, pos + |Head(major, |b|)|, b);
  }

  lemma AtSlice(data: seq<Byte>, pos: nat, bytes: seq<Byte>)
    requires At(data, pos, bytes)
    ensures pos + |bytes| <= |data| && data[pos..pos + |bytes|] == bytes
  {
  }

  lemma {:induction false} ReadBackArray(
      p: Profile, vs: seq<Value>, depth: nat, bytes: seq<Byte>, data: seq<Byte>, pos: nat, items: nat)
    requires Normal(Array(vs)) && EncodeValue(p, Array(vs), depth) == Ok(bytes)
    requires At(data, pos, bytes) && |data| < INT_LIMIT
    requires items + Count(Array(vs)) <= p.maxItems
    ensures DecodeItem(p, data, pos, items, depth)
         == Ok(Parsed(Array(vs), pos + |bytes|, items + Count(Array(vs))))
    decreases vs, |vs| + 1
  {
    hide DecodeItem, DecodeItems, EncodeItems, Head, ReadArg, At;
    var n := |vs|;
    ItemsFillBytes(p, vs, n, depth + 1);
    var body := EncodeItems(p, vs, n, depth + 1).value;
    AtFits(data, pos, bytes);
    ReadHead(data, pos, 4, n, body);
    ReadBackItems(p, vs, n, depth + 1, body, data, pos + |Head(4, n)|, items + 1);
    assert vs[..n] == vs;
    ArrayStep(p, data, pos, items, depth, Argument(n, pos + |Head(4, n)|));
  }

  lemma ArrayStep(p: Profile, data: seq<Byte>, pos: nat, items: nat, depth: nat, a: Argument)
    requires depth <= p.maxDepth && items < p.maxItems && pos < |data|
    requires data[pos] / 32 == 4 && ReadArg(data, pos + 1, data[pos] % 32, pos) == Ok(a) && a.arg < INT_LIMIT
    requires DecodeItems(p, data, a.pos, items + 1, depth + 1, a.arg).Ok?
    ensures var r := DecodeItems(p, data, a.pos, items + 1, depth + 1, a.arg).value;
            DecodeItem(p, data, pos, items, depth) == Ok(Parsed(Array(r.val), r.pos, r.items))
  {
  }

  lemma MapStep(p: Profile, data: seq<Byte>, pos: nat, items: nat, depth: nat, a: Argument)
    requires depth <= p.maxDepth && items < p.maxItems && pos < |data|
    requires data[pos] / 32 == 5 && ReadArg(data, pos + 1, data[pos] % 32, pos) == Ok(a) && a.arg < INT_LIMIT
    requires DecodeEntries(p, data, a.pos, items + 1, depth + 1, a.arg).Ok?
    ensures var r := DecodeEntries(p, data, a.pos, items + 1, depth + 1, a.arg).value;
            DecodeItem(p, data, pos, items, depth) == Ok(Parsed(Map(r.val.entries), r.pos, r.items))
  {
  }

  lemma {:induction false} ReadBackItems(
      p: Profile, vs: seq<Value>, k: nat, depth: nat, bytes: seq<Byte>, data: seq<Byte>, pos: nat, items: nat)
    requires k <= |vs| && forall i :: 0 <= i < |vs| ==> Normal(vs[i])
    requires EncodeItems(p, vs, k, depth) == Ok(bytes)
    requires At(data, pos, bytes) && |data| < INT_LIMIT
    requires items + CountItems(vs, k) <= p.maxItems
    ensures DecodeItems(p, data, pos, items, depth, k)
         == Ok(Parsed(vs[..k], pos + |bytes|, items + CountItems(vs, k)))
    decreases vs, k
  {
    hide *;
    AtFits(data, pos, bytes);
    if k == 0 {
      ItemsBase(p, vs, depth, data, pos, items);
    } else {
      var front, last := EncodeItemsStep(p, vs, k, depth);
      AtParts(data, pos, front, last);
      CountItemsStep(vs, k);
      ReadBackItems(p, vs, k - 1, depth, front, data, pos, items);
      ReadBack(p, vs[k - 1], depth, last, data, pos + |front|, items + CountItems(vs, k - 1));
      assert vs[..k] == vs[..k - 1] + [vs[k - 1]];
      ItemsStep(p, data, pos, items, depth, k, Parsed(vs[..k - 1], pos + |front|, items + CountItems(vs, k - 1)),
                Parsed(vs[k - 1], pos + |bytes|, items + CountItems(vs, k)));
    }
  }

  lemma EncodeItemsStep(p: Profile, vs: seq<Value>, k: nat, depth: nat) returns (front: seq<Byte>, last: seq<Byte>)
    requires 0 < k <= |vs| && EncodeItems(p, vs, k, depth).Ok?
    ensures EncodeItems(p, vs, k - 1, depth) == Ok(front)
    ensures EncodeValue(p, vs[k - 1], depth) == Ok(last)
    ensures EncodeItems(p, vs, k, depth) == Ok(front + last)
  {
    front := EncodeItems(p, vs, k - 1, depth).value;
    last := EncodeValue(p, vs[k - 1], depth).value;
  }

  lemma ItemsBase(p: Profile, vs: seq<Value>, depth: nat, data: seq<Byte>, pos: nat, items: nat)
    requires pos <= |data|
    ensures EncodeItems(p, vs, 0, depth) == Ok([]) && CountItems(vs, 0) == 0
    ensures DecodeItems(p, data, pos, items, depth, 0) == Ok(Parsed(vs[..0], pos, items))
  {
  }

  lemma CountItemsStep(vs: seq<Value>, k: nat)
    requires 0 < k <= |vs|
    ensures CountItems(vs, k) == CountItems(vs, k - 1) + Count(vs[k - 1])
  {
  }

  lemma ItemsStep(p: Profile, data: seq<Byte>, pos: nat, items: nat, depth: nat, k: nat,
                  front: Parsed<seq<Value>>, last: Parsed<Value>)
    requires k > 0 && pos <= |data| && DecodeItems(p, data, pos, items, depth, k - 1) == Ok(front)
    requires DecodeItem(p, data, front.pos, front.items, depth) == Ok(last)
    ensures DecodeItems(p, data, pos, items, depth, k)
         == Ok(Parsed(front.val + [last.val], last.pos, last.items))
  {
  }

  lemma {:induction false} ReadBackMap(
      p: Profile, entries: seq<MapEntry>, depth: nat, bytes: seq<Byte>, data: seq<Byte>, pos: nat, items: nat)
    requires Normal(Map(entries)) && EncodeValue(p, Map(entries), depth) == Ok(bytes)
    requires At(data, pos, bytes) && |data| < INT_LIMIT
    requires items + Count(Map(entries)) <= p.maxItems
    ensures DecodeItem(p, data, pos, items, depth)
         == Ok(Parsed(Map(entries), pos + |bytes|, items + Count(Map(entries))))
    decreases entries, |entries| + 1
  {
    hide DecodeItem, DecodeEntries, EncodePairs, Head, ReadArg, At, Concat, Sort;
    var n := |entries|;
    var pairs := PairsOfMap(p, entries, depth);
    NormalPairsAreSorted(p, entries, depth + 1, pairs);
    SortOfSorted(pairs);
    PairsFillBytes(pairs, n);
    AtFits(data, pos, bytes);
    ReadHead(data, pos, 5, n, Concat(pairs, n));
    ReadBackEntries(p, entries, n, depth + 1, data, pos + |Head(5, n)|, items + 1, pairs);
    assert entries[..n] == entries;
    MapStep(p, data, pos, items, depth, Argument(n, pos + |Head(5, n)|));
  }

  lemma NormalPairsAreSorted(p: Profile, entries: seq<MapEntry>, depth: nat, pairs: seq<Pair>)
    requires |pairs| == |entries| && PairsOf(p, entries, depth, pairs)
    requires AscendingKeys(entries)
    ensures StrictlySorted(pairs) && Sorted(pairs)
    ensures forall i :: 0 <= i < |pairs| ==> |pairs[i].key| >= 1
  {
    PairKeys(p, entries, depth, pairs);
    StrictIsDistinct(pairs);
    forall i | 0 <= i < |pairs| ensures |pairs[i].key| >= 1 {
      assert pairs[i].key == KeyBytes(entries[i].key);
    }
  }

  function PrevKey(pairs: seq<Pair>, k: nat): seq<Byte>
    requires k <= |pairs|
  {
    if k == 0 then [] else pairs[k - 1].key
  }

  lemma {:induction false} ReadBackEntries(
      p: Profile, entries: seq<MapEntry>, k: nat, depth: nat, data: seq<Byte>, pos: nat, items: nat, pairs: seq<Pair>)
    requires k <= |entries| && forall i :: 0 <= i < |entries| ==> NormalEntry(entries[i])
    requires |pairs| == |entries| && PairsOf(p, entries, depth, pairs) && StrictlySorted(pairs)
    requires At(data, pos, Concat(pairs, k)) && |data| < INT_LIMIT
    requires items + CountEntries(entries, k) <= p.maxItems
    ensures DecodeEntries(p, data, pos, items, depth, k)
         == Ok(Parsed(Entries(entries[..k], PrevKey(pairs, k)),
                      pos + |Concat(pairs, k)|, items + CountEntries(entries, k)))
    decreases entries, k
  {
    hide *;
    AtFits(data, pos, Concat(pairs, k));
    if k == 0 {
      EntriesBase(p, entries, depth, data, pos, items, pairs);
    } else {
      var front := Concat(pairs, k - 1);
      var pair := pairs[k - 1];
      ConcatOfStep(pairs, k);
      CountStep(entries, k);
      var state := Entries(entries[..k - 1], PrevKey(pairs, k - 1));
      KeyFollows(p, entries, depth, pairs, k);
      AtParts(data, pos, front, pair.key + pair.val);
      ReadBackEntries(p, entries, k - 1, depth, data, pos, items, pairs);
      ReadBackEntry(p, entries[0].key.Text?, entries[k - 1], depth, data, pos + |front|,
                    items + CountEntries(entries, k - 1), state, pair);
      assert entries[..k] == entries[..k - 1] + [entries[k - 1]];
      EntriesStep(p, data, pos, items, depth, k,
                  Parsed(state, pos + |front|, items + CountEntries(entries, k - 1)));
      PrevKeyStep(pairs, k);
    }
  }

  /** Key `k - 1` is of the type of the first and sorts after the one before it. */
  lemma KeyFollows(p: Profile, entries: seq<MapEntry>, depth: nat, pairs: seq<Pair>, k: nat)
    requires 0 < k <= |pairs| && PairsOf(p, entries, depth, pairs) && StrictlySorted(pairs)
    ensures EncodePair(p, entries[0].key.Text?, entries[k - 1], depth) == Ok(pairs[k - 1])
    ensures k >= 2 ==> Less(PrevKey(pairs, k - 1), pairs[k - 1].key)
  {
  }

  lemma EntriesBase(
      p: Profile, entries: seq<MapEntry>, depth: nat, data: seq<Byte>, pos: nat, items: nat, pairs: seq<Pair>)
    requires pos <= |data|
    ensures Concat(pairs, 0) == [] && PrevKey(pairs, 0) == [] && CountEntries(entries, 0) == 0
    ensures DecodeEntries(p, data, pos, items, depth, 0) == Ok(Parsed(Entries(entries[..0], []), pos, items))
  {
  }

  lemma EntriesStep(p: Profile, data: seq<Byte>, pos: nat, items: nat, depth: nat, k: nat, front: Parsed<Entries>)
    requires k > 0 && pos <= |data| && DecodeEntries(p, data, pos, items, depth, k - 1) == Ok(front)
    ensures DecodeEntries(p, data, pos, items, depth, k)
         == DecodeEntry(p, data, front.pos, front.items, depth, front.val)
  {
  }

  lemma PrevKeyStep(pairs: seq<Pair>, k: nat)
    requires 0 < k <= |pairs|
    ensures PrevKey(pairs, k) == pairs[k - 1].key
  {
  }

  lemma ConcatOfStep(pairs: seq<Pair>, k: nat)
    requires 0 < k <= |pairs|
    ensures Concat(pairs, k) == Concat(pairs, k - 1) + (pairs[k - 1].key + pairs[k - 1].val)
  {
  }

  lemma CountStep(entries: seq<MapEntry>, k: nat)
    requires 0 < k <= |entries|
    ensures CountEntries(entries, k) == CountEntries(entries, k - 1) + Weight(entries[k - 1])
  {
  }

  lemma {:induction false} ReadBackEntry(
      p: Profile, keysAreText: bool, e: MapEntry, depth: nat, data: seq<Byte>, pos: nat, items: nat,
      state: Entries, pair: Pair)
    requires NormalEntry(e) && EncodePair(p, keysAreText, e, depth) == Ok(pair)
    requires state.entries != [] ==> state.entries[0].key.Text? == keysAreText && Less(state.prevKey, pair.key)
    requires At(data, pos, pair.key + pair.val) && |data| < INT_LIMIT
    requires items + Weight(e) <= p.maxItems
    ensures DecodeEntry(p, data, pos, items, depth, state)
         == Ok(Parsed(Entries(state.entries + [e], pair.key), pos + |pair.key| + |pair.val|, items + Weight(e)))
    decreases e
  {
    hide DecodeItem, DecodeEntry, EncodeValue, Count, KeyRefusal, At;
    AtParts(data, pos, pair.key, pair.val);
    ReadBack(p, e.key, depth, pair.key, data, pos, items);
    ReadBack(p, e.value, depth, pair.val, data, pos + |pair.key|, items + Count(e.key));
    KeyAccepted(state, e.key, pair.key);
    EntryStep(p, data, pos, items, depth, state,
              Parsed(e.key, pos + |pair.key|, items + Count(e.key)),
              Parsed(e.value, pos + |pair.key| + |pair.val|, items + Weight(e)));
  }

  lemma KeyAccepted(state: Entries, key: Value, bytes: seq<Byte>)
    requires IsKey(key)
    requires state.entries != [] ==> state.entries[0].key.Text? == key.Text? && Less(state.prevKey, bytes)
    ensures KeyRefusal(state, key, bytes).None?
  {
    LessIsTotal(state.prevKey, bytes);
  }

  lemma EntryStep(p: Profile, data: seq<Byte>, pos: nat, items: nat, depth: nat, state: Entries,
                  key: Parsed<Value>, val: Parsed<Value>)
    requires pos <= |data| && DecodeItem(p, data, pos, items, depth) == Ok(key)
    requires KeyRefusal(state, key.val, data[pos..key.pos]).None?
    requires DecodeItem(p, data, key.pos, key.items, depth) == Ok(val)
    ensures DecodeEntry(p, data, pos, items, depth, state)
         == Ok(Parsed(Entries(state.entries + [MapEntry(key.val, val.val)], data[pos..key.pos]), val.pos, val.items))
  {
  }

  // ------------------------------------------------------------- item counts

  function Weight(e: MapEntry): nat {
    Count(e.key) + Count(e.value)
  }

  function TotalWeight(s: seq<Keyed<MapEntry>>): nat {
    if s == [] then 0 else TotalWeight(s[..|s| - 1]) + Weight(s[|s| - 1].val)
  }

  lemma TotalOfAppend(s: seq<Keyed<MapEntry>>, x: Keyed<MapEntry>)
    ensures TotalWeight(s + [x]) == TotalWeight(s) + Weight(x.val)
  {
    assert (s + [x])[..|s|] == s;
  }

  lemma {:induction false} InsertKeepsWeight(s: seq<Keyed<MapEntry>>, x: Keyed<MapEntry>)
    ensures TotalWeight(Insert(s, x)) == TotalWeight(s) + Weight(x.val)
  {
    if s == [] || !Less(x.key, s[|s| - 1].key) {
      TotalOfAppend(s, x);
    } else {
      InsertKeepsWeight(s[..|s| - 1], x);
      TotalOfAppend(Insert(s[..|s| - 1], x), s[|s| - 1]);
    }
  }

  lemma {:induction false} SortKeepsWeight(s: seq<Keyed<MapEntry>>)
    ensures TotalWeight(Sort(s)) == TotalWeight(s)
  {
    if s != [] {
      SortKeepsWeight(s[..|s| - 1]);
      InsertKeepsWeight(Sort(s[..|s| - 1]), s[|s| - 1]);
    }
  }

  lemma {:induction false} WeightIsCount(entries: seq<MapEntry>, s: seq<Keyed<MapEntry>>)
    requires |s| <= |entries| && forall i :: 0 <= i < |s| ==> s[i].val == entries[i]
    ensures TotalWeight(s) == CountEntries(entries, |s|)
  {
    if s != [] {
      WeightIsCount(entries, s[..|s| - 1]);
    }
  }

  lemma SortKeepsCount(entries: seq<MapEntry>)
    ensures CountEntries(SortEntries(entries), |entries|) == CountEntries(entries, |entries|)
  {
    var keyed := KeyedEntries(entries);
    SortKeepsWeight(keyed);
    WeightIsCount(entries, keyed);
    WeightIsCount(SortEntries(entries), Sort(keyed));
  }

  /** Normalization keeps the number of data items: a magnitude already counts as its array. */
  lemma {:induction false} NormKeepsCount(v: Value)
    ensures Count(Norm(v)) == Count(v)
    decreases v
  {
    NormUnfolds(v);
    match v {
      case Array(items) =>
        NormItemsKeepCount(items, |items|);
      case Map(entries) =>
        NormEntriesKeepCount(entries, |entries|);
        SortKeepsCount(NormEntries(entries));
      case Decimal(a, b) =>
        CountOfTwo(Int(a), Int(b));
      case Rational(a, b) =>
        CountOfTwo(Int(a), Int(b));
      case _ =>
    }
  }

  lemma CountOfTwo(a: Value, b: Value)
    ensures CountItems([a, b], 2) == Count(a) + Count(b)
  {
    assert CountItems([a, b], 1) == Count(a);
  }

  lemma {:induction false} NormItemsKeepCount(items: seq<Value>, k: nat)
    requires k <= |items|
    ensures CountItems(NormItems(items), k) == CountItems(items, k)
    decreases items, k
  {
    if k > 0 {
      NormItemsKeepCount(items, k - 1);
      NormKeepsCount(items[k - 1]);
    }
  }

  lemma {:induction false} NormEntriesKeepCount(entries: seq<MapEntry>, k: nat)
    requires k <= |entries|
    ensures CountEntries(NormEntries(entries), k) == CountEntries(entries, k)
    decreases entries, k
  {
    if k > 0 {
      var e := entries[k - 1];
      assert e.value < e;
      NormEntriesKeepCount(entries, k - 1);
      NormKeepsCount(e.value);
    }
  }

  // ------------------------------------------------------------- the theorems

  /** A success never overdraws the item budget. */
  lemma {:induction false} ItemsWithinBudget(p: Profile, data: seq<Byte>, pos: nat, items: nat, depth: nat)
    requires pos <= |data| && DecodeItem(p, data, pos, items, depth).Ok?
    ensures DecodeItem(p, data, pos, items, depth).value.items <= p.maxItems
    decreases |data| - pos, 0, 0
  {
    var major, ai := data[pos] / 32, data[pos] % 32;
    if major == 4 {
      var a := ReadArg(data, pos + 1, ai, pos).value;
      ListWithinBudget(p, data, a.pos, items + 1, depth + 1, a.arg);
    } else if major == 5 {
      var a := ReadArg(data, pos + 1, ai, pos).value;
      EntriesWithinBudget(p, data, a.pos, items + 1, depth + 1, a.arg);
    }
  }

  lemma {:induction false} ListWithinBudget(
      p: Profile, data: seq<Byte>, pos: nat, items: nat, depth: nat, k: nat)
    requires pos <= |data| && items <= p.maxItems && DecodeItems(p, data, pos, items, depth, k).Ok?
    ensures DecodeItems(p, data, pos, items, depth, k).value.items <= p.maxItems
    decreases |data| - pos, 1, k
  {
    if k > 0 {
      var front := DecodeItems(p, data, pos, items, depth, k - 1).value;
      ItemsWithinBudget(p, data, front.pos, front.items, depth);
    }
  }

  lemma {:induction false} EntriesWithinBudget(
      p: Profile, data: seq<Byte>, pos: nat, items: nat, depth: nat, k: nat)
    requires pos <= |data| && items <= p.maxItems && DecodeEntries(p, data, pos, items, depth, k).Ok?
    ensures DecodeEntries(p, data, pos, items, depth, k).value.items <= p.maxItems
    decreases |data| - pos, 1, k
  {
    if k > 0 {
      var front := DecodeEntries(p, data, pos, items, depth, k - 1).value;
      var key := DecodeItem(p, data, front.pos, front.items, depth).value;
      ItemsWithinBudget(p, data, key.pos, key.items, depth);
    }
  }

  /** Reading the encoder's bytes whole, under any budget that covers them. */
  lemma ReadWhole(p: Profile, v: Value)
    requires Encode(p, v).Ok? && |Encode(p, v).value| < INT_LIMIT && Count(v) <= p.maxItems
    ensures var b := Encode(p, v).value;
            DecodeItem(p, b, 0, 0, 0) == Ok(Parsed(Norm(v), |b|, Count(v)))
  {
    hide EncodeValue, DecodeItem, Norm, Normal, Count;
    var b := Encode(p, v).value;
    NormEncodes(p, v, 0);
    NormKeepsCount(v);
    assert b[0..|b|] == b;
    ReadBack(p, Norm(v), 0, b, b, 0, 0);
  }

  /**
   Decoding the bytes of an encodable value gives its normal form exactly when the item
   budget covers the value, and is refused for size otherwise.
   */
  lemma EncodeThenDecode(p: Profile, v: Value)
    requires Encode(p, v).Ok? && |Encode(p, v).value| < INT_LIMIT
    ensures var r := Decode(p, Encode(p, v).value);
            if Count(v) <= p.maxItems then r == Ok(Norm(v))
            else r.Err? && r.error.reason == SizeExceeded
  {
    var b := Encode(p, v).value;
    if Count(v) <= p.maxItems {
      ReadWhole(p, v);
    } else {
      var q := p.(maxItems := Count(v));
      EncodeKeeps(p, q, v, 0);
      ReadWhole(q, v);
      if !LimitHit(p, q, DecodeItem(p, b, 0, 0, 0)) {
        ItemKeeps(p, q, b, 0, 0, 0);
        ItemsWithinBudget(p, b, 0, 0, 0);
        assert false;
      }
    }
  }

  /** Two encodable values have the same bytes exactly when they have the same normal form. */
  lemma EqualBytesEqualForms(p: Profile, v: Value, w: Value)
    requires Encode(p, v).Ok? && |Encode(p, v).value| < INT_LIMIT
    requires Encode(p, w).Ok? && |Encode(p, w).value| < INT_LIMIT
    ensures Encode(p, v) == Encode(p, w) <==> Norm(v) == Norm(w)
  {
    NormEncodes(p, v, 0);
    NormEncodes(p, w, 0);
    if Encode(p, v) == Encode(p, w) {
      var q := p.(maxItems := Count(v) + Count(w));
      EncodeKeeps(p, q, v, 0);
      EncodeKeeps(p, q, w, 0);
      EncodeThenDecode(q, v);
      EncodeThenDecode(q, w);
    }
  }

  /** A value comes back from its bytes unchanged exactly when it is in normal form. */
  lemma UnchangedExactlyWhenNormal(p: Profile, v: Value)
    requires Encode(p, v).Ok? && |Encode(p, v).value| < INT_LIMIT && Count(v) <= p.maxItems
    ensures Decode(p, Encode(p, v).value) == Ok(v) <==> Normal(v)
  {
    EncodeThenDecode(p, v);
    NormalExactlyWhenFixed(p, v, 0);
  }
}
