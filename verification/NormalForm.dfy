/**
 The normal form of a value: every map sorted by encoded key, every magnitude erased to its
 two-integer array. It is what the bytes of a value keep of it, and what decoding returns.
 */
module NormalForm {
  import opened ByteOrder
  import opened Encoding
  import opened EncodingFacts
  import opened Heads
  import opened Results
  import opened Sorting
  import opened Values

  function KeyedEntries(entries: seq<MapEntry>): (s: seq<Keyed<MapEntry>>)
    ensures |s| == |entries|
  {
    seq(|entries|, i requires 0 <= i < |entries| => Keyed(KeyBytes(entries[i].key), entries[i]))
  }

  function Payloads(s: seq<Keyed<MapEntry>>): (entries: seq<MapEntry>)
    ensures |entries| == |s|
  {
    seq(|s|, i requires 0 <= i < |s| => s[i].val)
  }

  function SortEntries(entries: seq<MapEntry>): (r: seq<MapEntry>)
    ensures |r| == |entries|
  {
    Payloads(Sort(KeyedEntries(entries)))
  }

  function Norm(v: Value): Value
    decreases v
  {
    match v
    case Array(items) => Array(seq(|items|, i requires 0 <= i < |items| => Norm(items[i])))
    case Map(entries) => Map(SortEntries(seq(|entries|, i requires 0 <= i < |entries| => NormEntry(entries[i]))))
    case Decimal(scale, mantissa) => Array([Int(scale), Int(mantissa)])
    case Rational(num, den) => Array([Int(num), Int(den)])
    case _ => v
  }

  function NormEntry(e: MapEntry): MapEntry
    decreases e
  {
    MapEntry(e.key, Norm(e.value))
  }

  function NormItems(items: seq<Value>): (r: seq<Value>)
    ensures |r| == |items|
  {
    seq(|items|, i requires 0 <= i < |items| => Norm(items[i]))
  }

  function NormEntries(entries: seq<MapEntry>): (r: seq<MapEntry>)
    ensures |r| == |entries|
  {
    seq(|entries|, i requires 0 <= i < |entries| => NormEntry(entries[i]))
  }

  lemma NormUnfolds(v: Value)
    ensures v.Array? ==> Norm(v) == Array(NormItems(v.items))
    ensures v.Map? ==> Norm(v) == Map(SortEntries(NormEntries(v.entries)))
  {
    if v.Array? {
      assert Norm(v).items == NormItems(v.items);
    } else if v.Map? {
      assert seq(|v.entries|, i requires 0 <= i < |v.entries| => NormEntry(v.entries[i])) == NormEntries(v.entries);
    }
  }

  /** Keys in strictly ascending order of their bytes. */
  ghost predicate AscendingKeys(entries: seq<MapEntry>) {
    forall i, j :: 0 <= i < j < |entries| ==> Less(KeyBytes(entries[i].key), KeyBytes(entries[j].key))
  }

  /** A value as the decoder returns it. */
  ghost predicate Normal(v: Value)
    decreases v
  {
    match v
    case Array(items) => forall i :: 0 <= i < |items| ==> Normal(items[i])
    case Map(entries) => AscendingKeys(entries) && forall i :: 0 <= i < |entries| ==> NormalEntry(entries[i])
    case Decimal(_, _) => false
    case Rational(_, _) => false
    case _ => true
  }

  ghost predicate NormalEntry(e: MapEntry)
    decreases e
  {
    IsKey(e.key) && Normal(e.value)
  }

  lemma MembersOfSort<T>(s: seq<Keyed<T>>, i: nat) returns (j: nat)
    requires i < |s|
    ensures j < |s| && Sort(s)[i] == s[j]
  {
    SortKeepsContents(s);
    assert Sort(s)[i] in multiset(Sort(s));
    assert Sort(s)[i] in s;
    j :| 0 <= j < |s| && Sort(s)[i] == s[j];
  }

  lemma MemberOfSorted(entries: seq<MapEntry>, i: nat) returns (j: nat)
    requires i < |entries|
    ensures j < |entries| && SortEntries(entries)[i] == entries[j]
    ensures Sort(KeyedEntries(entries))[i] == Keyed(KeyBytes(entries[j].key), entries[j])
  {
    j := MembersOfSort(KeyedEntries(entries), i);
  }

  /** Every entry has a place in the sorted map. */
  lemma PlaceInSorted(entries: seq<MapEntry>, i: nat) returns (j: nat)
    requires i < |entries|
    ensures j < |entries| && SortEntries(entries)[j] == entries[i]
  {
    var keyed := KeyedEntries(entries);
    SortKeepsContents(keyed);
    assert keyed[i] in multiset(keyed);
    assert keyed[i] in Sort(keyed);
    j :| 0 <= j < |keyed| && Sort(keyed)[j] == keyed[i];
  }

  // ----------------------------------------- the normal form has the same bytes

  /** The payload relation sorting carries along: entry `e` encodes to its key and `b`. */
  ghost function Spells(p: Profile, keysAreText: bool, depth: nat): (MapEntry, seq<Byte>) -> bool {
    (e, b) => EncodePair(p, keysAreText, e, depth) == Ok(Keyed(KeyBytes(e.key), b))
  }

  /** Sorting the entries and sorting their encoded pairs is one and the same sort. */
  lemma SortCommutes(p: Profile, entries: seq<MapEntry>, depth: nat, pairs: seq<Pair>)
    requires |pairs| == |entries| && PairsOf(p, entries, depth, pairs)
    ensures PairsOf(p, SortEntries(entries), depth, Sort(pairs))
  {
    if entries != [] {
      var text := entries[0].key.Text?;
      SortSpells(p, text, entries, depth, pairs);
      PairKey(p, text, SortEntries(entries)[0], depth);
    }
  }

  lemma SortSpells(p: Profile, keysAreText: bool, entries: seq<MapEntry>, depth: nat, pairs: seq<Pair>)
    requires |pairs| == |entries|
    requires forall i :: 0 <= i < |pairs| ==> EncodePair(p, keysAreText, entries[i], depth) == Ok(pairs[i])
    ensures forall i :: 0 <= i < |pairs|
                    ==> EncodePair(p, keysAreText, SortEntries(entries)[i], depth) == Ok(Sort(pairs)[i])
  {
    var keyed := KeyedEntries(entries);
    var spells := Spells(p, keysAreText, depth);
    forall i | 0 <= i < |pairs| ensures keyed[i].key == pairs[i].key && spells(keyed[i].val, pairs[i].val) {
      PairKey(p, keysAreText, entries[i], depth);
    }
    SortRelated(keyed, pairs, spells);
    forall i | 0 <= i < |pairs|
      ensures EncodePair(p, keysAreText, SortEntries(entries)[i], depth) == Ok(Sort(pairs)[i])
    {
      var j := MemberOfSorted(entries, i);
      assert spells(Sort(keyed)[i].val, Sort(pairs)[i].val);
    }
  }

  lemma {:induction false} NormEntryEncodes(p: Profile, keysAreText: bool, e: MapEntry, depth: nat)
    requires EncodePair(p, keysAreText, e, depth).Ok?
    ensures EncodePair(p, keysAreText, NormEntry(e), depth) == EncodePair(p, keysAreText, e, depth)
    ensures NormalEntry(NormEntry(e))
    decreases e
  {
    PairKey(p, keysAreText, e, depth);
    NormEncodes(p, e.value, depth);
  }

  /** Normalizing an encodable value keeps its bytes, and leaves nothing more to normalize. */
  lemma {:induction false} NormEncodes(p: Profile, v: Value, depth: nat)
    requires EncodeValue(p, v, depth).Ok?
    ensures EncodeValue(p, Norm(v), depth) == EncodeValue(p, v, depth)
    ensures Normal(Norm(v))
    decreases v
  {
    NormUnfolds(v);
    match v {
      case Array(items) =>
        NormItemsEncode(p, items, depth);
      case Map(entries) =>
        NormMapEncodes(p, entries, depth);
      case Decimal(scale, mantissa) =>
        PairIsArray(p, scale, mantissa, depth);
      case Rational(num, den) =>
        PairIsArray(p, num, den, depth);
      case _ =>
    }
  }

  lemma PairIsArray(p: Profile, a: int, b: int, depth: nat)
    requires EncodeIntPair(p, a, b, depth).Ok? && depth <= p.maxDepth
    ensures EncodeValue(p, Array([Int(a), Int(b)]), depth) == EncodeIntPair(p, a, b, depth)
  {
    var items := [Int(a), Int(b)];
    assert EncodeItems(p, items, 1, depth + 1) == Ok([] + EncodeInt(a).value);
    assert [] + EncodeInt(a).value == EncodeInt(a).value;
    assert EncodeItems(p, items, 2, depth + 1) == Ok(EncodeInt(a).value + EncodeInt(b).value);
    var x, y := EncodeInt(a).value, EncodeInt(b).value;
    assert Head(4, 2) + (x + y) == Head(4, 2) + x + y;
  }

  lemma {:induction false} NormItemsEncode(p: Profile, items: seq<Value>, depth: nat)
    requires EncodeValue(p, Array(items), depth).Ok?
    ensures EncodeValue(p, Array(NormItems(items)), depth) == EncodeValue(p, Array(items), depth)
    ensures Normal(Array(NormItems(items)))
    decreases items
  {
    ArrayParts(p, items, depth);
    hide EncodeValue;
    forall i | 0 <= i < |items|
      ensures EncodeValue(p, NormItems(items)[i], depth + 1) == EncodeValue(p, items[i], depth + 1)
      ensures Normal(NormItems(items)[i])
    {
      NormEncodes(p, items[i], depth + 1);
    }
    ArrayAlike(p, NormItems(items), items, depth);
  }

  lemma {:induction false} NormPairs(p: Profile, entries: seq<MapEntry>, depth: nat, pairs: seq<Pair>)
    requires |pairs| == |entries| && PairsOf(p, entries, depth, pairs)
    ensures PairsOf(p, NormEntries(entries), depth, pairs)
    ensures forall i :: 0 <= i < |entries| ==> NormalEntry(NormEntries(entries)[i])
    decreases entries, 0
  {
    forall i | 0 <= i < |entries|
      ensures EncodePair(p, entries[0].key.Text?, NormEntries(entries)[i], depth) == Ok(pairs[i])
      ensures NormalEntry(NormEntries(entries)[i])
    {
      NormEntryEncodes(p, entries[0].key.Text?, entries[i], depth);
    }
  }

  lemma {:induction false} NormMapEncodes(p: Profile, entries: seq<MapEntry>, depth: nat)
    requires EncodeValue(p, Map(entries), depth).Ok?
    ensures EncodeValue(p, Map(SortEntries(NormEntries(entries))), depth) == EncodeValue(p, Map(entries), depth)
    ensures Normal(Map(SortEntries(NormEntries(entries))))
    decreases entries, 1
  {
    var pairs := PairsOfMap(p, entries, depth);
    hide *;
    var normed := NormEntries(entries);
    NormPairs(p, entries, depth + 1, pairs);
    SortCommutes(p, normed, depth + 1, pairs);
    MapOfPairs(p, SortEntries(normed), depth, Sort(pairs));
    FinishSorted(pairs);
    SortedMapAscends(p, normed, depth + 1, pairs);
    SortedStaysNormal(normed);
    NormalMap(SortEntries(normed));
  }

  lemma NormalMap(entries: seq<MapEntry>)
    requires AscendingKeys(entries) && forall i :: 0 <= i < |entries| ==> NormalEntry(entries[i])
    ensures Normal(Map(entries))
  {
  }

  lemma SortedStaysNormal(entries: seq<MapEntry>)
    requires forall i :: 0 <= i < |entries| ==> NormalEntry(entries[i])
    ensures forall i :: 0 <= i < |entries| ==> NormalEntry(SortEntries(entries)[i])
  {
    forall i | 0 <= i < |entries| ensures NormalEntry(SortEntries(entries)[i]) {
      var j := MemberOfSorted(entries, i);
    }
  }

  /** Sorting first makes no difference to the map written. */
  lemma FinishSorted(pairs: seq<Pair>)
    ensures FinishMap(Sort(pairs)) == FinishMap(pairs)
  {
    SortIsSorted(pairs);
    SortOfSorted(Sort(pairs));
  }

  lemma SortedMapAscends(p: Profile, entries: seq<MapEntry>, depth: nat, pairs: seq<Pair>)
    requires |pairs| == |entries| && !HasDuplicate(Sort(pairs))
    requires PairsOf(p, SortEntries(entries), depth, Sort(pairs))
    ensures AscendingKeys(SortEntries(entries))
  {
    var sorted, spelled := SortEntries(entries), Sort(pairs);
    NoDuplicateIsStrict(pairs);
    PairKeys(p, sorted, depth, spelled);
    forall i, j | 0 <= i < j < |entries| ensures Less(KeyBytes(sorted[i].key), KeyBytes(sorted[j].key)) {
      assert Less(spelled[i].key, spelled[j].key);
    }
  }

  // --------------------------------------------- normal forms are left alone

  lemma SortedEntriesAreFixed(entries: seq<MapEntry>)
    requires AscendingKeys(entries)
    ensures SortEntries(entries) == entries
  {
    var keyed := KeyedEntries(entries);
    forall i, j | 0 <= i < j < |entries| ensures !Less(keyed[j].key, keyed[i].key) {
      LessIsTotal(keyed[i].key, keyed[j].key);
    }
    SortOfSorted(keyed);
    assert Payloads(keyed) == entries;
  }

  /** Normalization leaves a normal value alone. */
  lemma {:induction false} NormalIsFixed(v: Value)
    requires Normal(v)
    ensures Norm(v) == v
    decreases v
  {
    NormUnfolds(v);
    match v {
      case Array(items) =>
        forall i | 0 <= i < |items| ensures Norm(items[i]) == items[i] {
          NormalIsFixed(items[i]);
        }
        assert NormItems(items) == items;
      case Map(entries) =>
        forall i | 0 <= i < |entries| ensures NormEntry(entries[i]) == entries[i] {
          NormalEntryIsFixed(entries[i]);
        }
        assert NormEntries(entries) == entries;
        SortedEntriesAreFixed(entries);
      case _ =>
    }
  }

  lemma {:induction false} NormalEntryIsFixed(e: MapEntry)
    requires NormalEntry(e)
    ensures NormEntry(e) == e
    decreases e
  {
    NormalIsFixed(e.value);
  }

  /** Among encodable values the normal ones are exactly the fixed points of normalization. */
  lemma NormalExactlyWhenFixed(p: Profile, v: Value, depth: nat)
    requires EncodeValue(p, v, depth).Ok?
    ensures Normal(v) <==> Norm(v) == v
  {
    NormEncodes(p, v, depth);
    if Normal(v) {
      NormalIsFixed(v);
    }
  }
}
