/**
 Equal bytes, told without sorting anything: two values have them exactly when one is the other
 with its map entries in some order, magnitudes read as the arrays they are written as.
 */
module SameUpToOrder {
  import opened ByteOrder
  import opened CanonicalDomain
  import opened Encoding
  import opened EncodingFacts
  import opened NormalForm
  import opened Reordering
  import opened Results
  import opened RoundTrip
  import opened Sorting
  import opened Values

  // -------------------------------------------------- magnitudes as arrays

  function AsArrays(v: Value): Value
    decreases v
  {
    match v
    case Array(items) => Array(seq(|items|, i requires 0 <= i < |items| => AsArrays(items[i])))
    case Map(entries) => Map(seq(|entries|, i requires 0 <= i < |entries| => EntryAsArrays(entries[i])))
    case Decimal(scale, mantissa) => Array([Int(scale), Int(mantissa)])
    case Rational(num, den) => Array([Int(num), Int(den)])
    case _ => v
  }

  function EntryAsArrays(e: MapEntry): MapEntry
    decreases e
  {
    MapEntry(e.key, AsArrays(e.value))
  }

  ghost predicate NoMagnitudes(v: Value)
    decreases v
  {
    match v
    case Array(items) => forall i :: 0 <= i < |items| ==> NoMagnitudes(items[i])
    case Map(entries) => forall i :: 0 <= i < |entries| ==> EntryWithoutMagnitudes(entries[i])
    case Decimal(_, _) => false
    case Rational(_, _) => false
    case _ => true
  }

  ghost predicate EntryWithoutMagnitudes(e: MapEntry)
    decreases e
  {
    NoMagnitudes(e.value)
  }

  lemma {:induction false} AsArraysHasNone(v: Value)
    ensures NoMagnitudes(AsArrays(v))
    decreases v
  {
    match v {
      case Array(items) =>
        forall i | 0 <= i < |items| ensures NoMagnitudes(AsArrays(v).items[i]) {
          AsArraysHasNone(items[i]);
        }
      case Map(entries) =>
        forall i | 0 <= i < |entries| ensures EntryWithoutMagnitudes(AsArrays(v).entries[i]) {
          EntryHasNone(entries[i]);
        }
      case _ =>
    }
  }

  lemma {:induction false} EntryHasNone(e: MapEntry)
    ensures EntryWithoutMagnitudes(EntryAsArrays(e))
    decreases e
  {
    AsArraysHasNone(e.value);
  }

  /** An encodable magnitude is written as its array. */
  lemma {:induction false} AsArraysEncodes(p: Profile, v: Value, depth: nat)
    requires EncodeValue(p, v, depth).Ok?
    ensures EncodeValue(p, AsArrays(v), depth) == EncodeValue(p, v, depth)
    decreases v
  {
    hide EncodeItems, EncodePairs, FinishMap;
    match v {
      case Array(items) =>
        ArrayParts(p, items, depth);
        var others := AsArrays(v).items;
        forall i | 0 <= i < |items|
          ensures EncodeValue(p, others[i], depth + 1) == EncodeValue(p, items[i], depth + 1)
        {
          AsArraysEncodes(p, items[i], depth + 1);
        }
        ArrayAlike(p, others, items, depth);
      case Map(entries) =>
        MapAsArraysEncodes(p, entries, depth);
      case Decimal(scale, mantissa) =>
        PairIsArray(p, scale, mantissa, depth);
      case Rational(num, den) =>
        PairIsArray(p, num, den, depth);
      case _ =>
    }
  }

  lemma {:induction false} MapAsArraysEncodes(p: Profile, entries: seq<MapEntry>, depth: nat)
    requires EncodeValue(p, Map(entries), depth).Ok?
    ensures EncodeValue(p, AsArrays(Map(entries)), depth) == EncodeValue(p, Map(entries), depth)
    decreases entries
  {
    hide EncodeValue, EncodePair, FinishMap, HasDuplicate, Sort;
    var pairs := PairsOfMap(p, entries, depth);
    var others := AsArrays(Map(entries)).entries;
    forall i | 0 <= i < |entries|
      ensures EncodePair(p, others[0].key.Text?, others[i], depth + 1) == Ok(pairs[i])
    {
      assert others[i] == EntryAsArrays(entries[i]) && others[0] == EntryAsArrays(entries[0]);
      EntryAsArraysEncodes(p, entries[0].key.Text?, entries[i], depth + 1);
    }
    MapOfPairs(p, others, depth, pairs);
  }

  lemma {:induction false} EntryAsArraysEncodes(p: Profile, keysAreText: bool, e: MapEntry, depth: nat)
    requires EncodePair(p, keysAreText, e, depth).Ok?
    ensures EncodePair(p, keysAreText, EntryAsArrays(e), depth) == EncodePair(p, keysAreText, e, depth)
    decreases e
  {
    hide EncodeValue, AsArrays;
    AsArraysEncodes(p, e.value, depth);
  }

  // ------------------------------------- equal normal forms are reorderings

  lemma {:induction false} EqualFormsReordered(p: Profile, v: Value, w: Value, depth: nat)
    requires Canonical(p, v, depth) && Canonical(p, w, depth)
    requires NoMagnitudes(v) && NoMagnitudes(w) && Norm(v) == Norm(w)
    ensures Reordered(v, w)
    decreases v
  {
    NormUnfolds(v);
    NormUnfolds(w);
    match v {
      case Array(items) =>
        forall i | 0 <= i < |items| ensures Reordered(items[i], w.items[i]) {
          assert NormItems(items)[i] == NormItems(w.items)[i];
          EqualFormsReordered(p, items[i], w.items[i], depth + 1);
        }
      case Map(entries) =>
        EqualMapsReordered(p, entries, w.entries, depth);
      case _ =>
    }
  }

  lemma {:induction false} EqualMapsReordered(p: Profile, entries: seq<MapEntry>, others: seq<MapEntry>, depth: nat)
    requires Canonical(p, Map(entries), depth) && Canonical(p, Map(others), depth)
    requires NoMagnitudes(Map(entries)) && NoMagnitudes(Map(others))
    requires SortEntries(NormEntries(entries)) == SortEntries(NormEntries(others))
    ensures Reordered(Map(entries), Map(others))
    decreases entries, 1
  {
    hide Canonical, CanonicalEntry, NoMagnitudes, EntryWithoutMagnitudes, Reordered, SameForms, SortEntries,
         NormEntries;
    SameFormMembers(entries, others);
    EntriesOnly(p, entries, depth);
    EntriesOnly(p, others, depth);
    var mid := CounterpartsOf(p, entries, others, |others|, depth);
    MiddleIsWhole(entries, others, mid);
    RearrangedIsReordered(entries, mid, others);
  }

  /** Every entry of each map has its counterpart, of the same normal form, in the other. */
  ghost predicate SameForms(entries: seq<MapEntry>, others: seq<MapEntry>) {
    && |entries| == |others|
    && (forall i :: 0 <= i < |others| ==> NormEntry(others[i]) in NormEntries(entries))
    && (forall j :: 0 <= j < |entries| ==> NormEntry(entries[j]) in NormEntries(others))
  }

  lemma SameFormMembers(entries: seq<MapEntry>, others: seq<MapEntry>)
    requires SortEntries(NormEntries(entries)) == SortEntries(NormEntries(others))
    ensures SameForms(entries, others)
  {
    hide NormEntry, SortEntries;
    var a, b := NormEntries(entries), NormEntries(others);
    forall i | 0 <= i < |others| ensures NormEntry(others[i]) in a {
      assert b[i] == NormEntry(others[i]);
      var j := CounterpartIn(b, a, i);
    }
    forall j | 0 <= j < |entries| ensures NormEntry(entries[j]) in b {
      assert a[j] == NormEntry(entries[j]);
      var i := CounterpartIn(a, b, j);
    }
  }

  /** The entry of one map with the normal form of an entry of the other. */
  lemma FormOf(entries: seq<MapEntry>, e: MapEntry) returns (j: nat)
    requires NormEntry(e) in NormEntries(entries)
    ensures j < |entries| && NormEntry(entries[j]) == NormEntry(e)
  {
    hide NormEntry;
    j :| 0 <= j < |entries| && NormEntries(entries)[j] == NormEntry(e);
  }

  lemma CounterpartIn(a: seq<MapEntry>, b: seq<MapEntry>, i: nat) returns (j: nat)
    requires SortEntries(a) == SortEntries(b) && i < |a|
    ensures j < |b| && b[j] == a[i]
  {
    hide SortEntries;
    var k := PlaceInSorted(a, i);
    j := MemberOfSorted(b, k);
  }

  lemma EntriesOnly(p: Profile, entries: seq<MapEntry>, depth: nat)
    requires Canonical(p, Map(entries), depth) && NoMagnitudes(Map(entries))
    ensures forall i, j :: 0 <= i < j < |entries| ==> entries[i].key != entries[j].key
    ensures forall i :: 0 <= i < |entries| ==>
              CanonicalEntry(p, entries[i], depth + 1) && EntryWithoutMagnitudes(entries[i])
  {
  }

  lemma {:induction false} CounterpartsOf(
      p: Profile, entries: seq<MapEntry>, others: seq<MapEntry>, k: nat, depth: nat) returns (mid: seq<MapEntry>)
    requires k <= |others| && SameForms(entries, others)
    requires forall i :: 0 <= i < |entries| ==>
               CanonicalEntry(p, entries[i], depth + 1) && EntryWithoutMagnitudes(entries[i])
    requires forall i :: 0 <= i < |others| ==>
               CanonicalEntry(p, others[i], depth + 1) && EntryWithoutMagnitudes(others[i])
    ensures |mid| == k
    ensures forall i :: 0 <= i < k ==> mid[i] in entries && ReorderedEntry(mid[i], others[i])
    decreases entries, 0, k
  {
    hide CanonicalEntry, NormEntry, NormEntries, EntryWithoutMagnitudes, ReorderedEntry;
    if k == 0 {
      mid := [];
    } else {
      var front := CounterpartsOf(p, entries, others, k - 1, depth);
      var j := FormOf(entries, others[k - 1]);
      EqualEntriesReordered(p, entries[j], others[k - 1], depth + 1);
      mid := front + [entries[j]];
    }
  }

  lemma {:induction false} EqualEntriesReordered(p: Profile, e: MapEntry, f: MapEntry, depth: nat)
    requires CanonicalEntry(p, e, depth) && CanonicalEntry(p, f, depth)
    requires EntryWithoutMagnitudes(e) && EntryWithoutMagnitudes(f) && NormEntry(e) == NormEntry(f)
    ensures ReorderedEntry(e, f)
    decreases e
  {
    hide Canonical, NoMagnitudes, Norm, Reordered;
    EqualFormsReordered(p, e.value, f.value, depth);
  }

  /** The counterparts, one for each entry of the other map, are all the entries. */
  lemma MiddleIsWhole(entries: seq<MapEntry>, others: seq<MapEntry>, mid: seq<MapEntry>)
    requires |mid| == |others| && SameForms(entries, others)
    requires forall i, j :: 0 <= i < j < |entries| ==> entries[i].key != entries[j].key
    requires forall i, j :: 0 <= i < j < |others| ==> others[i].key != others[j].key
    requires forall i :: 0 <= i < |mid| ==> mid[i] in entries && ReorderedEntry(mid[i], others[i])
    ensures Rearranges(entries, mid, others)
  {
    hide ReorderedEntry, NormEntry, NormEntries;
    forall i | 0 <= i < |mid| ensures mid[i].key == others[i].key {
      SameKey(mid[i], others[i]);
    }
    forall j | 0 <= j < |entries| ensures entries[j] in mid {
      var i := FormOf(others, entries[j]);
      SameFormSameKey(entries[j], others[i]);
      var l :| 0 <= l < |entries| && entries[l] == mid[i];
      assert entries[l].key == entries[j].key;
    }
    SameMembersSameContents(mid, entries);
  }

  lemma SameKey(e: MapEntry, f: MapEntry)
    requires ReorderedEntry(e, f)
    ensures e.key == f.key
  {
  }

  lemma SameFormSameKey(e: MapEntry, f: MapEntry)
    requires NormEntry(e) == NormEntry(f)
    ensures e.key == f.key
  {
  }

  lemma RearrangedIsReordered(entries: seq<MapEntry>, mid: seq<MapEntry>, others: seq<MapEntry>)
    requires Rearranges(entries, mid, others)
    ensures Reordered(Map(entries), Map(others))
  {
    hide ReorderedEntry;
  }

  // ------------------------------------------------------------- the theorems

  /** Without magnitudes, having the same bytes is being the same up to the order of map entries. */
  lemma EqualBytesReordered(p: Profile, v: Value, w: Value)
    requires Encode(p, v).Ok? && |Encode(p, v).value| < INT_LIMIT
    requires Encode(p, w).Ok? && |Encode(p, w).value| < INT_LIMIT
    requires NoMagnitudes(v) && NoMagnitudes(w)
    ensures Encode(p, v) == Encode(p, w) <==> Reordered(v, w)
  {
    hide EncodeValue, Canonical, Reordered, NoMagnitudes, Norm;
    if Encode(p, v) == Encode(p, w) {
      EqualBytesEqualForms(p, v, w);
      EncodeSucceedsOnDomain(p, v);
      EncodeSucceedsOnDomain(p, w);
      EqualFormsReordered(p, v, w, 0);
    }
    if Reordered(v, w) {
      AuthoredOrderIsInvisible(p, v, w);
    }
  }

  /** With magnitudes, it is being so once each is read as its array: the order and no more is lost. */
  lemma EqualBytesSameUpToOrder(p: Profile, v: Value, w: Value)
    requires Encode(p, v).Ok? && |Encode(p, v).value| < INT_LIMIT
    requires Encode(p, w).Ok? && |Encode(p, w).value| < INT_LIMIT
    ensures Encode(p, v) == Encode(p, w) <==> Reordered(AsArrays(v), AsArrays(w))
  {
    hide EncodeValue, Reordered, NoMagnitudes, AsArrays;
    AsArraysEncodes(p, v, 0);
    AsArraysEncodes(p, w, 0);
    AsArraysHasNone(v);
    AsArraysHasNone(w);
    EqualBytesReordered(p, AsArrays(v), AsArrays(w));
  }
}
