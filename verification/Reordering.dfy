/** Bytes do not depend on the authored order of map entries, at any depth. */
module Reordering {
  import opened Encoding
  import opened EncodingFacts
  import opened Results
  import opened Sorting
  import opened Values

  /** `w` is `v` with the entries of its maps, at every depth, in some other order. */
  ghost predicate Reordered(v: Value, w: Value)
    decreases v
  {
    match v
    case Array(items) =>
      w.Array? && |items| == |w.items| && forall i :: 0 <= i < |items| ==> Reordered(items[i], w.items[i])
    case Map(entries) =>
      w.Map? && exists mid: seq<MapEntry> ::
                  && multiset(mid) == multiset(entries) && |mid| == |w.entries|
                  && forall i :: 0 <= i < |mid| ==> mid[i] in entries && ReorderedEntry(mid[i], w.entries[i])
    case _ => v == w
  }

  ghost predicate ReorderedEntry(e: MapEntry, f: MapEntry)
    decreases e
  {
    e.key == f.key && Reordered(e.value, f.value)
  }

  /** The pair an entry contributes; only used where the entry encodes. */
  function PairOf(p: Profile, keysAreText: bool, depth: nat): MapEntry -> Pair {
    e => match EncodePair(p, keysAreText, e, depth)
         case Ok(pair) => pair
         case Err(_) => Keyed([], [])
  }

  lemma {:induction false} ReorderedEntryEncodes(
      p: Profile, keysAreText: bool, e: MapEntry, f: MapEntry, depth: nat)
    requires ReorderedEntry(e, f) && EncodePair(p, keysAreText, e, depth).Ok?
    ensures EncodePair(p, keysAreText, f, depth) == EncodePair(p, keysAreText, e, depth)
    decreases e
  {
    ReorderedEncodes(p, e.value, f.value, depth);
  }

  /** Reordering the entries of an encodable value's maps leaves its bytes alone. */
  lemma {:induction false} ReorderedEncodes(p: Profile, v: Value, w: Value, depth: nat)
    requires Reordered(v, w) && EncodeValue(p, v, depth).Ok?
    ensures EncodeValue(p, w, depth) == EncodeValue(p, v, depth)
    decreases v
  {
    SameShape(v, w);
    hide EncodeValue, Reordered;
    match v {
      case Array(items) =>
        ReorderedItemsEncode(p, items, w.items, depth);
      case Map(entries) =>
        ReorderedMapEncodes(p, entries, w.entries, depth);
      case _ =>
    }
  }

  lemma SameShape(v: Value, w: Value)
    requires Reordered(v, w)
    ensures v.Array? ==> w.Array?
    ensures v.Map? ==> w.Map?
    ensures !v.Array? && !v.Map? ==> v == w
  {
  }

  lemma {:induction false} ReorderedItemsEncode(p: Profile, items: seq<Value>, others: seq<Value>, depth: nat)
    requires Reordered(Array(items), Array(others)) && EncodeValue(p, Array(items), depth).Ok?
    ensures EncodeValue(p, Array(others), depth) == EncodeValue(p, Array(items), depth)
    decreases items
  {
    ArrayParts(p, items, depth);
    ItemsMatch(items, others);
    hide *;
    forall i | 0 <= i < |items|
      ensures EncodeValue(p, others[i], depth + 1) == EncodeValue(p, items[i], depth + 1)
    {
      ReorderedEncodes(p, items[i], others[i], depth + 1);
    }
    ArrayAlike(p, others, items, depth);
  }

  lemma ItemsMatch(items: seq<Value>, others: seq<Value>)
    requires Reordered(Array(items), Array(others))
    ensures |items| == |others| && forall i :: 0 <= i < |items| ==> Reordered(items[i], others[i])
  {
  }

  /** `mid` holds the entries in their new order, each matching its counterpart. */
  ghost predicate Rearranges(entries: seq<MapEntry>, mid: seq<MapEntry>, others: seq<MapEntry>) {
    && multiset(mid) == multiset(entries) && |mid| == |others|
    && forall i :: 0 <= i < |mid| ==> mid[i] in entries && ReorderedEntry(mid[i], others[i])
  }

  lemma MiddleOrder(entries: seq<MapEntry>, others: seq<MapEntry>) returns (mid: seq<MapEntry>)
    requires Reordered(Map(entries), Map(others))
    ensures Rearranges(entries, mid, others) && |mid| == |entries| == |others|
  {
    mid :| && multiset(mid) == multiset(entries) && |mid| == |others|
           && forall i :: 0 <= i < |mid| ==> mid[i] in entries && ReorderedEntry(mid[i], others[i]);
    SameSize(mid, entries);
  }

  lemma {:induction false} ReorderedMapEncodes(p: Profile, entries: seq<MapEntry>, others: seq<MapEntry>, depth: nat)
    requires Reordered(Map(entries), Map(others)) && EncodeValue(p, Map(entries), depth).Ok?
    ensures EncodeValue(p, Map(others), depth) == EncodeValue(p, Map(entries), depth)
    decreases entries, 1
  {
    hide *;
    var mid := MiddleOrder(entries, others);
    var pairs := PairsOfMap(p, entries, depth);
    if entries == [] {
      assert others == entries;
    } else {
      var f := PairOf(p, entries[0].key.Text?, depth + 1);
      var moved := Image(mid, f);
      MovedPairs(p, entries[0].key.Text?, entries, mid, others, depth + 1, pairs);
      ImageContents(mid, entries, f);
      PairsAreImage(p, entries, depth + 1, pairs);
      MapOfPairs(p, others, depth, moved);
      FinishIgnoresOrder(pairs, moved);
    }
  }

  lemma PairsAreImage(p: Profile, entries: seq<MapEntry>, depth: nat, pairs: seq<Pair>)
    requires entries != [] && |pairs| == |entries| && PairsOf(p, entries, depth, pairs)
    ensures Image(entries, PairOf(p, entries[0].key.Text?, depth)) == pairs
  {
  }

  lemma {:induction false} MovedPairs(
      p: Profile, keysAreText: bool, entries: seq<MapEntry>, mid: seq<MapEntry>, others: seq<MapEntry>,
      depth: nat, pairs: seq<Pair>)
    requires entries != [] && keysAreText == entries[0].key.Text?
    requires |pairs| == |entries| && PairsOf(p, entries, depth, pairs)
    requires Rearranges(entries, mid, others)
    ensures PairsOf(p, others, depth, Image(mid, PairOf(p, keysAreText, depth)))
    decreases entries, 0
  {
    var moved := Image(mid, PairOf(p, keysAreText, depth));
    forall i | 0 <= i < |mid|
      ensures EncodePair(p, keysAreText, others[i], depth) == Ok(moved[i]) && others[i].key.Text? == keysAreText
    {
      var j :| 0 <= j < |entries| && entries[j] == mid[i];
      ReorderedEntryEncodes(p, keysAreText, entries[j], others[i], depth);
      PairKey(p, keysAreText, others[i], depth);
    }
  }

  /** Pairs with the same contents and distinct keys are written the same. */
  lemma FinishIgnoresOrder(pairs: seq<Pair>, moved: seq<Pair>)
    requires multiset(pairs) == multiset(moved) && |pairs| == |moved| && !HasDuplicate(Sort(pairs))
    ensures FinishMap(moved) == FinishMap(pairs)
  {
    NoDuplicateIsStrict(pairs);
    SortKeepsContents(moved);
    SortIsSorted(moved);
    AnySortAgrees(pairs, Sort(moved));
  }

  /** Authored order never reaches the bytes. */
  lemma AuthoredOrderIsInvisible(p: Profile, v: Value, w: Value)
    requires Reordered(v, w) && Encode(p, v).Ok?
    ensures Encode(p, w) == Encode(p, v)
  {
    ReorderedEncodes(p, v, w, 0);
  }
}
