/**
 What each refusal of the encoder means: it is given exactly when the first faulty node, in the
 order the encoder visits them, has the fault the refusal names.
 */
module EncodeRefusals {
  import opened ByteOrder
  import opened CanonicalDomain
  import opened Encoding
  import opened EncodingFacts
  import opened Errors
  import opened Magnitudes
  import opened Results
  import opened TextRules
  import opened Values

  /** `e` is the fault of the first faulty node of `v`, which stands at `depth`. */
  ghost predicate FirstFault(p: Profile, v: Value, depth: nat, e: EncodeError)
    decreases v
  {
    if depth > p.maxDepth then e == NestingTooDeep
    else
      match v
      case Int(n) => IntFault(n, e)
      case Text(s) => TextFault(p, s, e)
      case Array(items) =>
        exists i :: 0 <= i < |items| && FirstFault(p, items[i], depth + 1, e)
                    && forall j :: 0 <= j < i ==> Canonical(p, items[j], depth + 1)
      case Map(entries) =>
        || (exists i :: 0 <= i < |entries|
                        && EntryFault(p, entries[0].key.Text?, entries[i], depth + 1, e)
                        && forall j :: 0 <= j < i ==> GoodEntry(p, entries[0].key.Text?, entries[j], depth + 1))
        || (e == DuplicateKey
            && (forall j :: 0 <= j < |entries| ==> GoodEntry(p, entries[0].key.Text?, entries[j], depth + 1))
            && exists i, j :: 0 <= i < j < |entries| && entries[i].key == entries[j].key)
      case Decimal(scale, mantissa) =>
        if mantissa == 0 && scale != 0 then e == ZeroDecimalForm
        else if mantissa != 0 && mantissa % 10 == 0 then e == MantissaDivisibleByTen
        else PairFault(p, scale, mantissa, depth, e)
      case Rational(num, den) =>
        if den <= 0 then e == DenominatorNotPositive
        else if num == 0 && den != 1 then e == ZeroRationalForm
        else if num != 0 && Gcd(Abs(num), den) != 1 then e == NotCoprime
        else PairFault(p, num, den, depth, e)
      case _ => false
  }

  /** The fault of an entry of a map whose first key is a text or not: its key's type, then the key, then the value. */
  ghost predicate EntryFault(p: Profile, keysAreText: bool, e: MapEntry, depth: nat, why: EncodeError)
    decreases e
  {
    if !e.key.Int? && !e.key.Text? then why == BadKey
    else if e.key.Text? != keysAreText then why == MixedKeys
    else if !Canonical(p, e.key, depth) then FirstFault(p, e.key, depth, why)
    else FirstFault(p, e.value, depth, why)
  }

  ghost predicate GoodEntry(p: Profile, keysAreText: bool, e: MapEntry, depth: nat) {
    IsKey(e.key) && e.key.Text? == keysAreText && CanonicalEntry(p, e, depth)
  }

  predicate IntFault(n: int, e: EncodeError) {
    (e == IntegerTooLarge && n >= UINT64_LIMIT) || (e == IntegerTooSmall && n < -UINT64_LIMIT)
  }

  predicate TextFault(p: Profile, s: seq<Byte>, e: EncodeError) {
    if !ValidUtf8(s) then e == TextNotUtf8
    else if HasBom(s) then e == TextCarriesBom
    else e == TextNotNfc && !p.isNfc(s)
  }

  predicate PairFault(p: Profile, a: int, b: int, depth: nat, e: EncodeError) {
    if depth + 1 > p.maxDepth then e == NestingTooDeep
    else if !IntInRange(a) then IntFault(a, e)
    else IntFault(b, e)
  }

  // ------------------------------------------------------------------ the loops

  /** The items are refused as the first refused one, everything before it being encodable. */
  lemma {:induction false} FirstRefusedItem(p: Profile, items: seq<Value>, k: nat, depth: nat) returns (i: nat)
    requires k <= |items| && EncodeItems(p, items, k, depth).Err?
    ensures i < k && EncodeItems(p, items, i, depth).Ok?
    ensures EncodeValue(p, items[i], depth) == Err(EncodeItems(p, items, k, depth).error)
  {
    hide EncodeValue;
    if EncodeItems(p, items, k - 1, depth).Err? {
      i := FirstRefusedItem(p, items, k - 1, depth);
    } else {
      i := k - 1;
    }
  }

  lemma ItemsRefusedAt(p: Profile, items: seq<Value>, i: nat, depth: nat)
    requires i < |items| && EncodeValue(p, items[i], depth).Err?
    requires forall j :: 0 <= j < i ==> EncodeValue(p, items[j], depth).Ok?
    ensures EncodeItems(p, items, |items|, depth) == Err(EncodeValue(p, items[i], depth).error)
  {
    hide EncodeValue;
    ItemsEncode(p, items, i, depth);
    ItemRefusalStands(p, items, i + 1, |items|, depth);
  }

  lemma {:induction false} FirstRefusedPair(p: Profile, entries: seq<MapEntry>, k: nat, depth: nat) returns (i: nat)
    requires k <= |entries| && EncodePairs(p, entries, k, depth).Err?
    ensures i < k && EncodePairs(p, entries, i, depth).Ok?
    ensures EncodePair(p, entries[0].key.Text?, entries[i], depth) == Err(EncodePairs(p, entries, k, depth).error)
  {
    hide EncodePair;
    if EncodePairs(p, entries, k - 1, depth).Err? {
      i := FirstRefusedPair(p, entries, k - 1, depth);
    } else {
      i := k - 1;
    }
  }

  lemma PairsRefusedAt(p: Profile, entries: seq<MapEntry>, i: nat, depth: nat)
    requires i < |entries| && EncodePair(p, entries[0].key.Text?, entries[i], depth).Err?
    requires forall j :: 0 <= j < i ==> EncodePair(p, entries[0].key.Text?, entries[j], depth).Ok?
    ensures EncodePairs(p, entries, |entries|, depth)
         == Err(EncodePair(p, entries[0].key.Text?, entries[i], depth).error)
  {
    hide EncodePair;
    PairsEncode(p, entries, i, depth);
    PairRefusalStands(p, entries, i + 1, |entries|, depth);
  }

  // -------------------------------------------------------------- the recursion

  lemma {:induction false} RefusedExactly(p: Profile, v: Value, depth: nat, e: EncodeError)
    ensures EncodeValue(p, v, depth) == Err(e) <==> FirstFault(p, v, depth, e)
    decreases v, 0
  {
    hide EncodeValue, FirstFault;
    if depth > p.maxDepth {
      TooDeepExactly(p, v, depth, e);
    } else {
      match v {
        case Array(items) =>
          ArrayRefusedExactly(p, items, depth, e);
        case Map(entries) =>
          MapRefusedExactly(p, entries, depth, e);
        case Decimal(_, _) =>
          DecimalRefusedExactly(p, v, depth, e);
        case Rational(_, _) =>
          RationalRefusedExactly(p, v, depth, e);
        case _ =>
          LeafRefusedExactly(p, v, depth, e);
      }
    }
  }

  lemma TooDeepExactly(p: Profile, v: Value, depth: nat, e: EncodeError)
    requires depth > p.maxDepth
    ensures EncodeValue(p, v, depth) == Err(e) <==> FirstFault(p, v, depth, e)
  {
    hide EncodeItems, EncodePairs, FinishMap, EntryFault, GoodEntry, Canonical, TextFault, EncodeText, PairFault;
  }

  lemma LeafRefusedExactly(p: Profile, v: Value, depth: nat, e: EncodeError)
    requires depth <= p.maxDepth && (v.Int? || v.Bytes? || v.Text? || v.Bool?)
    ensures EncodeValue(p, v, depth) == Err(e) <==> FirstFault(p, v, depth, e)
  {
    hide EncodeItems, EncodePairs, FinishMap, EntryFault, GoodEntry, Canonical, ValidUtf8, HasBom, IntBytes, TextBytes,
         PairFault;
  }

  lemma DecimalRefusedExactly(p: Profile, v: Value, depth: nat, e: EncodeError)
    requires depth <= p.maxDepth && v.Decimal?
    ensures EncodeValue(p, v, depth) == Err(e) <==> FirstFault(p, v, depth, e)
  {
    hide EncodeItems, EncodePairs, FinishMap, EntryFault, GoodEntry, Canonical, EncodeIntPair, PairFault;
    PairRefusedExactly(p, v.scale, v.mantissa, depth, e);
  }

  lemma RationalRefusedExactly(p: Profile, v: Value, depth: nat, e: EncodeError)
    requires depth <= p.maxDepth && v.Rational?
    ensures EncodeValue(p, v, depth) == Err(e) <==> FirstFault(p, v, depth, e)
  {
    hide EncodeItems, EncodePairs, FinishMap, EntryFault, GoodEntry, Canonical, EncodeIntPair, PairFault, Gcd;
    PairRefusedExactly(p, v.num, v.den, depth, e);
  }

  lemma PairRefusedExactly(p: Profile, a: int, b: int, depth: nat, e: EncodeError)
    ensures EncodeIntPair(p, a, b, depth) == Err(e) <==> PairFault(p, a, b, depth, e)
  {
    hide IntBytes;
  }

  lemma {:induction false} ArrayRefusedExactly(p: Profile, items: seq<Value>, depth: nat, e: EncodeError)
    requires depth <= p.maxDepth
    ensures EncodeValue(p, Array(items), depth) == Err(e) <==> FirstFault(p, Array(items), depth, e)
    decreases items
  {
    hide EncodeValue, EncodeItems, FirstFault, Canonical;
    ArrayRefusal(p, items, depth);
    FirstFaultOfArray(p, items, depth, e);
    forall i | 0 <= i < |items|
      ensures EncodeValue(p, items[i], depth + 1) == Err(e) <==> FirstFault(p, items[i], depth + 1, e)
      ensures EncodeValue(p, items[i], depth + 1).Ok? <==> Canonical(p, items[i], depth + 1)
    {
      RefusedExactly(p, items[i], depth + 1, e);
      EncodableIsCanonical(p, items[i], depth + 1);
    }
    if EncodeItems(p, items, |items|, depth + 1) == Err(e) {
      var i := FirstRefusedItem(p, items, |items|, depth + 1);
      ItemsEncode(p, items, i, depth + 1);
    }
    if i :| 0 <= i < |items| && FirstFault(p, items[i], depth + 1, e)
            && forall j :: 0 <= j < i ==> Canonical(p, items[j], depth + 1) {
      ItemsRefusedAt(p, items, i, depth + 1);
    }
  }

  lemma ArrayRefusal(p: Profile, items: seq<Value>, depth: nat)
    requires depth <= p.maxDepth
    ensures forall e :: EncodeValue(p, Array(items), depth) == Err(e)
                   <==> EncodeItems(p, items, |items|, depth + 1) == Err(e)
  {
    hide EncodeItems;
  }

  lemma FirstFaultOfArray(p: Profile, items: seq<Value>, depth: nat, e: EncodeError)
    requires depth <= p.maxDepth
    ensures FirstFault(p, Array(items), depth, e)
       <==> exists i :: 0 <= i < |items| && FirstFault(p, items[i], depth + 1, e)
                        && forall j :: 0 <= j < i ==> Canonical(p, items[j], depth + 1)
  {
    hide Canonical;
  }

  lemma {:induction false} EntryRefusedExactly(p: Profile, keysAreText: bool, e: MapEntry, depth: nat, why: EncodeError)
    ensures EncodePair(p, keysAreText, e, depth) == Err(why) <==> EntryFault(p, keysAreText, e, depth, why)
    ensures EncodePair(p, keysAreText, e, depth).Ok? <==> GoodEntry(p, keysAreText, e, depth)
    decreases e
  {
    hide EncodeValue, FirstFault, Canonical;
    EntryIsCanonical(p, keysAreText, e, depth);
    EncodableIsCanonical(p, e.key, depth);
    RefusedExactly(p, e.key, depth, why);
    RefusedExactly(p, e.value, depth, why);
  }

  lemma {:induction false} MapRefusedExactly(p: Profile, entries: seq<MapEntry>, depth: nat, e: EncodeError)
    requires depth <= p.maxDepth
    ensures EncodeValue(p, Map(entries), depth) == Err(e) <==> FirstFault(p, Map(entries), depth, e)
    decreases entries
  {
    hide EncodeValue, EncodePair, EncodePairs, FinishMap, FirstFault, EntryFault, GoodEntry;
    MapRefusal(p, entries, depth, e);
    FirstFaultOfMap(p, entries, depth, e);
    forall i | 0 <= i < |entries|
      ensures EncodePair(p, entries[0].key.Text?, entries[i], depth + 1) == Err(e)
         <==> EntryFault(p, entries[0].key.Text?, entries[i], depth + 1, e)
      ensures EncodePair(p, entries[0].key.Text?, entries[i], depth + 1).Ok?
         <==> GoodEntry(p, entries[0].key.Text?, entries[i], depth + 1)
    {
      EntryRefusedExactly(p, entries[0].key.Text?, entries[i], depth + 1, e);
    }
    PairsEncode(p, entries, |entries|, depth + 1);
    PairsRefusedExactly(p, entries, depth + 1, e);
    if EncodePairs(p, entries, |entries|, depth + 1).Ok? {
      DistinctValuesDistinctBytes(p, entries, depth + 1, EncodePairs(p, entries, |entries|, depth + 1).value);
    }
  }

  /** The pairs are refused with the refusal of the first refused one. */
  lemma PairsRefusedExactly(p: Profile, entries: seq<MapEntry>, depth: nat, e: EncodeError)
    ensures EncodePairs(p, entries, |entries|, depth) == Err(e)
       <==> exists i :: 0 <= i < |entries| && EncodePair(p, entries[0].key.Text?, entries[i], depth) == Err(e)
                        && forall j :: 0 <= j < i ==> EncodePair(p, entries[0].key.Text?, entries[j], depth).Ok?
  {
    hide EncodePair, EncodePairs;
    if EncodePairs(p, entries, |entries|, depth) == Err(e) {
      var i := FirstRefusedPair(p, entries, |entries|, depth);
      PairsEncode(p, entries, i, depth);
    }
    if i :| 0 <= i < |entries| && EncodePair(p, entries[0].key.Text?, entries[i], depth) == Err(e)
            && forall j :: 0 <= j < i ==> EncodePair(p, entries[0].key.Text?, entries[j], depth).Ok? {
      PairsRefusedAt(p, entries, i, depth);
    }
  }

  /** A map is refused by its first refused pair, or else by the duplicate test. */
  lemma MapRefusal(p: Profile, entries: seq<MapEntry>, depth: nat, e: EncodeError)
    requires depth <= p.maxDepth
    ensures EncodeValue(p, Map(entries), depth) == Err(e)
       <==> match EncodePairs(p, entries, |entries|, depth + 1)
            case Err(why) => why == e
            case Ok(pairs) => FinishMap(pairs).Err? && e == DuplicateKey
  {
    hide EncodePairs;
  }

  lemma FirstFaultOfMap(p: Profile, entries: seq<MapEntry>, depth: nat, e: EncodeError)
    requires depth <= p.maxDepth
    ensures FirstFault(p, Map(entries), depth, e)
       <==> || (exists i :: 0 <= i < |entries|
                            && EntryFault(p, entries[0].key.Text?, entries[i], depth + 1, e)
                            && forall j :: 0 <= j < i ==> GoodEntry(p, entries[0].key.Text?, entries[j], depth + 1))
            || (e == DuplicateKey
                && (forall j :: 0 <= j < |entries| ==> GoodEntry(p, entries[0].key.Text?, entries[j], depth + 1))
                && exists i, j :: 0 <= i < j < |entries| && entries[i].key == entries[j].key)
  {
    hide EntryFault, GoodEntry;
  }

  /**
   `Encode` refuses with a reason exactly when it is the first fault of the value; so a value is
   encoded exactly when it has none.
   */
  lemma EncodeRefusesFaults(p: Profile, v: Value, e: EncodeError)
    ensures Encode(p, v) == Err(e) <==> FirstFault(p, v, 0, e)
  {
    hide EncodeValue, FirstFault;
    RefusedExactly(p, v, 0, e);
  }
}
