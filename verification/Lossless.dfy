/**
 End to end: decoding and interpreting lose nothing. Erasing an instance to a value, its
 fields listed in any order at all, and encoding it gives the artifact's bytes back.
 */
module Lossless {
  import opened ByteOrder
  import opened CanonicalDomain
  import opened Decoding
  import opened Encoding
  import opened EncodingFacts
  import opened Interpretation
  import opened Inverse
  import opened Magnitudes
  import opened NormalForm
  import opened Results
  import opened Sorting
  import opened Tables
  import opened Values

  lemma SomeMember(s: set<int>)
    ensures s != {} ==> exists k :: k in s
  {
    if forall k :: k !in s {
      assert s == {};
    }
  }

  /** The members of a set in some fixed but unspecified order, as a Go map is walked. */
  ghost function Listed(s: set<int>): (r: seq<int>)
    ensures |r| == |s|
    ensures forall k :: k in r <==> k in s
    ensures forall i, j :: 0 <= i < j < |r| ==> r[i] != r[j]
  {
    if s == {} then []
    else
      SomeMember(s);
      var k :| k in s;
      [k] + Listed(s - {k})
  }

  /** The value a field is a view of. */
  ghost function EraseField(f: Field): Value
    decreases f
  {
    match f
    case FInt(n) => Int(n)
    case FBytes(b) => Bytes(b)
    case FText(s) => Text(s)
    case FBool(flag) => Bool(flag)
    case FDecimal(s, m) => Decimal(s, m)
    case FRational(a, b) => Rational(a, b)
    case FArray(items) => Array(seq(|items|, i requires 0 <= i < |items| => EraseField(items[i])))
    case FRef(inst) => EraseInstance(inst)
  }

  ghost function EraseInstance(inst: Instance): Value
    decreases inst
  {
    var ks := Listed(inst.fields.Keys);
    Map(seq(|ks|, i requires 0 <= i < |ks| =>
      assert ks[i] in ks;
      MapEntry(Int(ks[i]), EraseField(inst.fields[ks[i]]))))
  }

  ghost function ErasedEntries(fields: map<int, Field>): (r: seq<MapEntry>)
    ensures |r| == |fields.Keys|
  {
    var ks := Listed(fields.Keys);
    seq(|ks|, i requires 0 <= i < |ks| =>
      assert ks[i] in ks;
      MapEntry(Int(ks[i]), EraseField(fields[ks[i]])))
  }

  lemma EraseUnfolds(inst: Instance)
    ensures EraseInstance(inst) == Map(ErasedEntries(inst.fields))
  {
    assert EraseInstance(inst).entries == ErasedEntries(inst.fields);
  }

  // ------------------------------- the erased instance has the value's normal form

  lemma {:induction false} FieldErasesBack(td: TypeDescriptor, v: Value, held: Held, version: int)
    requires Normal(v) && InterpretValue(td, v, held, version).Ok?
    ensures Norm(EraseField(InterpretValue(td, v, held, version).value)) == v
    decreases v, 1
  {
    hide InterpretMap, InterpretItems, EraseInstance, Normal, SortEntries, CheckDecimal, CheckRational;
    var f := InterpretValue(td, v, held, version).value;
    match f {
      case FArray(fields) =>
        ItemsEraseBack(td.elem.value, v, held, version);
      case FRef(inst) =>
        MapErasesBack(LookupTable(held, td.target, version).value, v, held, version);
      case FDecimal(_, _) =>
        assert v.items == [Int(v.items[0].n), Int(v.items[1].n)];
      case FRational(_, _) =>
        assert v.items == [Int(v.items[0].n), Int(v.items[1].n)];
      case _ =>
    }
  }

  lemma {:induction false} ItemsEraseBack(td: TypeDescriptor, v: Value, held: Held, version: int)
    requires Normal(v) && v.Array? && InterpretItems(td, v.items, |v.items|, held, version).Ok?
    ensures Norm(EraseField(FArray(InterpretItems(td, v.items, |v.items|, held, version).value))) == v
    decreases v, 0
  {
    var fields := InterpretItems(td, v.items, |v.items|, held, version).value;
    var erased := EraseField(FArray(fields));
    NormUnfolds(erased);
    ItemsPointwise(td, v.items, |v.items|, held, version);
    NormalItems(v);
    forall i | 0 <= i < |fields| ensures Norm(erased.items[i]) == v.items[i] {
      FieldErasesBack(td, v.items[i], held, version);
    }
    assert NormItems(erased.items) == v.items;
  }

  lemma NormalItems(v: Value)
    requires Normal(v) && v.Array?
    ensures forall i :: 0 <= i < |v.items| ==> Normal(v.items[i])
  {
  }

  lemma NormalEntries(v: Value)
    requires Normal(v) && v.Map?
    ensures AscendingKeys(v.entries)
    ensures forall i :: 0 <= i < |v.entries| ==> NormalEntry(v.entries[i]) && Normal(v.entries[i].value)
    ensures forall i, j :: 0 <= i < j < |v.entries| ==> v.entries[i].key != v.entries[j].key
  {
    forall i, j | 0 <= i < j < |v.entries| ensures v.entries[i].key != v.entries[j].key {
      LessIsTotal(KeyBytes(v.entries[i].key), KeyBytes(v.entries[j].key));
    }
  }

  /** Under distinct keys, the field stored for a key is the view of that key's entry. */
  lemma FieldOfEntry(table: FieldTable, entries: seq<MapEntry>, held: Held, version: int, i: nat)
    requires i < |entries| && InterpretEntries(table, entries, |entries|, held, version).Ok?
    requires forall i, j :: 0 <= i < j < |entries| ==> entries[i].key != entries[j].key
    ensures var fields := InterpretEntries(table, entries, |entries|, held, version).value;
            && entries[i].key.Int? && entries[i].key.n in fields
            && InterpretEntry(table, entries[i], held, version) == Ok(fields[entries[i].key.n])
  {
    EntriesPointwise(table, entries, |entries|, held, version);
    assert LastWithKey(entries, i, |entries|);
  }

  lemma {:induction false} EntryErasesBack(table: FieldTable, e: MapEntry, held: Held, version: int)
    requires NormalEntry(e) && InterpretEntry(table, e, held, version).Ok?
    ensures e.key.Int?
    ensures NormEntry(MapEntry(e.key, EraseField(InterpretEntry(table, e, held, version).value))) == e
    decreases e
  {
    FieldErasesBack(EntryByKey(table.entries, e.key.n).value.typ, e.value, held, version);
  }

  lemma {:induction false} MapErasesBack(table: FieldTable, v: Value, held: Held, version: int)
    requires Normal(v) && InterpretMap(table, v, held, version).Ok?
    ensures Norm(EraseInstance(InterpretMap(table, v, held, version).value)) == v
    decreases v, 0
  {
    var inst := InterpretMap(table, v, held, version).value;
    NormalEntries(v);
    EntriesEraseBack(table, v.entries, held, version);
    EraseUnfolds(inst);
    NormUnfolds(EraseInstance(inst));
    SortedBack(NormEntries(ErasedEntries(inst.fields)), v.entries);
  }

  /** Entries with the contents of an ascending map sort back into that map. */
  lemma SortedBack(entries: seq<MapEntry>, ascending: seq<MapEntry>)
    requires AscendingKeys(ascending)
    requires multiset(entries) == multiset(ascending)
    ensures SortEntries(entries) == ascending
  {
    var s, r := KeyedEntries(entries), KeyedEntries(ascending);
    KeyedContents(entries, ascending);
    assert StrictlySorted(r);
    StrictIsDistinct(r);
    DistinctTransfers(r, s);
    AnySortAgrees(s, r);
    assert Payloads(r) == ascending;
  }

  lemma KeyedContents(a: seq<MapEntry>, b: seq<MapEntry>)
    requires multiset(a) == multiset(b)
    ensures multiset(KeyedEntries(a)) == multiset(KeyedEntries(b))
  {
    var f := (e: MapEntry) => Keyed(KeyBytes(e.key), e);
    ImageContents(a, b, f);
    assert KeyedEntries(a) == Image(a, f) && KeyedEntries(b) == Image(b, f);
  }

  /** Erasing and normalizing the fields of a map gives its entries back, in some order. */
  lemma {:induction false} EntriesEraseBack(table: FieldTable, entries: seq<MapEntry>, held: Held, version: int)
    requires InterpretEntries(table, entries, |entries|, held, version).Ok?
    requires forall i, j :: 0 <= i < j < |entries| ==> entries[i].key != entries[j].key
    requires forall i :: 0 <= i < |entries| ==> NormalEntry(entries[i])
    ensures var fields := InterpretEntries(table, entries, |entries|, held, version).value;
            multiset(NormEntries(ErasedEntries(fields))) == multiset(entries)
    decreases entries
  {
    hide InterpretEntry, InterpretEntries, NormalEntry, EraseField, Norm, NormEntry;
    var fields := InterpretEntries(table, entries, |entries|, held, version).value;
    EntriesPointwise(table, entries, |entries|, held, version);
    forall i | 0 <= i < |entries|
      ensures entries[i].key.Int? && entries[i].key.n in fields
      ensures NormEntry(MapEntry(entries[i].key, EraseField(fields[entries[i].key.n]))) == entries[i]
    {
      FieldOfEntry(table, entries, held, version, i);
      EntryErasesBack(table, entries[i], held, version);
    }
    MembersMatch(entries, fields);
  }

  /** Each entry is the normalized erasure of the field under its key, and each field has its entry. */
  ghost predicate Matches(entries: seq<MapEntry>, fields: map<int, Field>) {
    && (forall k :: k in fields <==> exists i :: 0 <= i < |entries| && entries[i].key == Int(k))
    && (forall i :: 0 <= i < |entries| ==>
          && entries[i].key.Int? && entries[i].key.n in fields
          && NormEntry(MapEntry(entries[i].key, EraseField(fields[entries[i].key.n]))) == entries[i])
  }

  lemma MembersMatch(entries: seq<MapEntry>, fields: map<int, Field>)
    requires Matches(entries, fields)
    requires forall i, j :: 0 <= i < j < |entries| ==> entries[i].key != entries[j].key
    ensures multiset(NormEntries(ErasedEntries(fields))) == multiset(entries)
  {
    hide Matches, NormEntry, NormEntries, ErasedEntries, EraseField;
    var written := NormEntries(ErasedEntries(fields));
    var ks := Listed(fields.Keys);
    forall i | 0 <= i < |written| ensures i < |ks| && written[i].key == Int(ks[i]) && written[i] in entries {
      WrittenIsEntry(entries, fields, i);
    }
    forall j | 0 <= j < |entries| ensures entries[j] in written {
      EntryIsWritten(entries, fields, j);
    }
    SameMembersSameContents(written, entries);
  }

  lemma WrittenAt(fields: map<int, Field>, i: nat)
    requires i < |NormEntries(ErasedEntries(fields))|
    ensures i < |Listed(fields.Keys)| && Listed(fields.Keys)[i] in fields
    ensures var k := Listed(fields.Keys)[i];
            NormEntries(ErasedEntries(fields))[i] == NormEntry(MapEntry(Int(k), EraseField(fields[k])))
  {
    hide NormEntry, EraseField;
    assert Listed(fields.Keys)[i] in Listed(fields.Keys);
  }

  /** A written field is one of the entries. */
  lemma WrittenIsEntry(entries: seq<MapEntry>, fields: map<int, Field>, i: nat)
    requires Matches(entries, fields) && i < |NormEntries(ErasedEntries(fields))|
    ensures i < |Listed(fields.Keys)| && NormEntries(ErasedEntries(fields))[i].key == Int(Listed(fields.Keys)[i])
    ensures NormEntries(ErasedEntries(fields))[i] in entries
  {
    hide NormEntry, NormEntries, ErasedEntries, EraseField;
    WrittenAt(fields, i);
    var j :| 0 <= j < |entries| && entries[j].key == Int(Listed(fields.Keys)[i]);
    assert entries[j].key.n == Listed(fields.Keys)[i];
  }

  /** An entry is one of the written fields. */
  lemma EntryIsWritten(entries: seq<MapEntry>, fields: map<int, Field>, j: nat)
    requires Matches(entries, fields) && j < |entries|
    ensures entries[j] in NormEntries(ErasedEntries(fields))
  {
    hide NormEntry, NormEntries, ErasedEntries, EraseField;
    var ks := Listed(fields.Keys);
    assert entries[j].key.n in ks;
    var i :| 0 <= i < |ks| && ks[i] == entries[j].key.n;
    assert |ks| == |fields.Keys|;
    WrittenAt(fields, i);
  }

  // ------------------------------------------ and is canonical where the value is

  lemma {:induction false} FieldStaysCanonical(
      p: Profile, td: TypeDescriptor, v: Value, held: Held, version: int, depth: nat)
    requires Normal(v) && Canonical(p, v, depth) && InterpretValue(td, v, held, version).Ok?
    ensures Canonical(p, EraseField(InterpretValue(td, v, held, version).value), depth)
    decreases v, 1
  {
    hide InterpretMap, InterpretItems, EraseInstance, Normal, CheckDecimal, CheckRational;
    var f := InterpretValue(td, v, held, version).value;
    match f {
      case FArray(fields) =>
        NormalItems(v);
        ItemsPointwise(td.elem.value, v.items, |v.items|, held, version);
        forall i | 0 <= i < |fields| ensures Canonical(p, EraseField(fields[i]), depth + 1) {
          FieldStaysCanonical(p, td.elem.value, v.items[i], held, version, depth + 1);
        }
      case FRef(inst) =>
        MapStaysCanonical(p, LookupTable(held, td.target, version).value, v, held, version, depth);
      case FDecimal(_, _) =>
        assert Canonical(p, v.items[0], depth + 1) && Canonical(p, v.items[1], depth + 1);
      case FRational(_, _) =>
        assert Canonical(p, v.items[0], depth + 1) && Canonical(p, v.items[1], depth + 1);
      case _ =>
    }
  }

  lemma {:induction false} EntryStaysCanonical(
      p: Profile, table: FieldTable, e: MapEntry, held: Held, version: int, depth: nat)
    requires NormalEntry(e) && CanonicalEntry(p, e, depth) && InterpretEntry(table, e, held, version).Ok?
    ensures Canonical(p, EraseField(InterpretEntry(table, e, held, version).value), depth)
    ensures Canonical(p, e.key, depth)
    decreases e
  {
    FieldStaysCanonical(p, EntryByKey(table.entries, e.key.n).value.typ, e.value, held, version, depth);
  }

  lemma {:induction false} MapStaysCanonical(
      p: Profile, table: FieldTable, v: Value, held: Held, version: int, depth: nat)
    requires Normal(v) && Canonical(p, v, depth) && InterpretMap(table, v, held, version).Ok?
    ensures Canonical(p, EraseInstance(InterpretMap(table, v, held, version).value), depth)
    decreases v, 0
  {
    var inst := InterpretMap(table, v, held, version).value;
    NormalEntries(v);
    EntriesPointwise(table, v.entries, |v.entries|, held, version);
    CanonicalParts(p, v, depth);
    hide InterpretMap, InterpretEntry, Normal, Canonical;
    var ks, erased := Listed(inst.fields.Keys), ErasedEntries(inst.fields);
    forall i | 0 <= i < |erased| ensures erased[i].key == Int(ks[i]) && CanonicalEntry(p, erased[i], depth + 1) {
      assert ks[i] in ks;
      var j :| 0 <= j < |v.entries| && v.entries[j].key == Int(ks[i]);
      FieldOfEntry(table, v.entries, held, version, j);
      EntryStaysCanonical(p, table, v.entries[j], held, version, depth + 1);
    }
    EraseUnfolds(inst);
    CanonicalMap(p, erased, depth);
  }

  lemma CanonicalParts(p: Profile, v: Value, depth: nat)
    requires Canonical(p, v, depth) && v.Map?
    ensures depth <= p.maxDepth
    ensures forall i :: 0 <= i < |v.entries| ==> CanonicalEntry(p, v.entries[i], depth + 1)
  {
  }

  lemma CanonicalMap(p: Profile, entries: seq<MapEntry>, depth: nat)
    requires depth <= p.maxDepth
    requires forall i :: 0 <= i < |entries| ==> entries[i].key.Int? && CanonicalEntry(p, entries[i], depth + 1)
    requires forall i, j :: 0 <= i < j < |entries| ==> entries[i].key != entries[j].key
    ensures Canonical(p, Map(entries), depth)
  {
  }

  // ------------------------------------------------------------- the theorems

  /** The bytes of an artifact are the bytes of its erased instance. */
  lemma InstanceKeepsTheBytes(p: Profile, table: FieldTable, data: seq<Byte>, held: Held)
    requires Decode(p, data).Ok? && Interpret(table, Decode(p, data).value, held).Ok?
    ensures Encode(p, EraseInstance(Interpret(table, Decode(p, data).value, held).value)) == Ok(data)
  {
    var v := Decode(p, data).value;
    var erased := EraseInstance(Interpret(table, v, held).value);
    DecodeThenEncode(p, data);
    DecodeReturnsCanonical(p, data);
    MapErasesBack(table, v, held, table.version);
    MapStaysCanonical(p, table, v, held, table.version, 0);
    EncodableIsCanonical(p, erased, 0);
    NormEncodes(p, erased, 0);
  }

  /** Two artifacts with the same instance are the same bytes, under whatever registries they were read. */
  lemma EqualInstancesEqualBytes(p: Profile, table: FieldTable, a: seq<Byte>, b: seq<Byte>, held: Held, other: Held)
    requires Decode(p, a).Ok? && Decode(p, b).Ok?
    requires Interpret(table, Decode(p, a).value, held).Ok?
    requires Interpret(table, Decode(p, b).value, other) == Interpret(table, Decode(p, a).value, held)
    ensures a == b
  {
    InstanceKeepsTheBytes(p, table, a, held);
    InstanceKeepsTheBytes(p, table, b, other);
  }
}
