/**
 The floor on the wire: the canonical bytes of its three tables, as literals, load as exactly the
 tables a registry holding the floor answers with (schema/schema_test.go:19-23, schema/floor.go).
 */
module FloorBytes {
  import opened ByteOrder
  import opened Decoding
  import opened Encoding
  import opened Floor
  import opened FloorClosure
  import opened Heads
  import opened Inverse
  import opened Limits
  import opened NormalForm
  import opened Reach
  import opened Results
  import opened RoundTrip
  import opened Sorting
  import opened TableInverse
  import opened TablePrinting
  import opened Tables
  import opened TextRules
  import opened Values

  /** The canonical bytes of the meta-table's artifact: its head and its rows. */
  const META_BYTES: seq<Byte> := [0xa3, 0x00, 0x00, 0x01, 0x01, 0x02, 0x83] + META_ROW_0 + META_ROW_1 + META_ROW_2

  const META_ROW_0: seq<Byte> :=
    [0xa4, 0x00, 0x00, 0x01, 0x69, 0x64, 0x65, 0x73, 0x63, 0x72, 0x69, 0x62, 0x65, 0x73, 0x02, 0xa1, 0x00,
     0x00, 0x03, 0x01]
  const META_ROW_1: seq<Byte> :=
    [0xa4, 0x00, 0x01, 0x01, 0x67, 0x76, 0x65, 0x72, 0x73, 0x69, 0x6f, 0x6e, 0x02, 0xa1, 0x00, 0x00, 0x03, 0x01]
  const META_ROW_2: seq<Byte> :=
    [0xa4, 0x00, 0x02, 0x01, 0x67, 0x65, 0x6e, 0x74, 0x72, 0x69, 0x65, 0x73, 0x02, 0xa2, 0x00, 0x06, 0x01,
     0xa2, 0x00, 0x07, 0x02, 0x01, 0x03, 0x01]

  /** The canonical bytes of the entry table's artifact: its head and its rows. */
  const ENTRY_BYTES: seq<Byte> := [0xa3, 0x00, 0x01, 0x01, 0x01, 0x02, 0x84] + ENTRY_ROW_0 + ENTRY_ROW_1
    + ENTRY_ROW_2 + ENTRY_ROW_3

  const ENTRY_ROW_0: seq<Byte> :=
    [0xa4, 0x00, 0x00, 0x01, 0x63, 0x6b, 0x65, 0x79, 0x02, 0xa1, 0x00, 0x00, 0x03, 0x01]
  const ENTRY_ROW_1: seq<Byte> :=
    [0xa4, 0x00, 0x01, 0x01, 0x64, 0x6e, 0x61, 0x6d, 0x65, 0x02, 0xa1, 0x00, 0x02, 0x03, 0x01]
  const ENTRY_ROW_2: seq<Byte> :=
    [0xa4, 0x00, 0x02, 0x01, 0x64, 0x74, 0x79, 0x70, 0x65, 0x02, 0xa2, 0x00, 0x07, 0x02, 0x02, 0x03, 0x01]
  const ENTRY_ROW_3: seq<Byte> :=
    [0xa4, 0x00, 0x03, 0x01, 0x68, 0x70, 0x72, 0x65, 0x73, 0x65, 0x6e, 0x63, 0x65, 0x02, 0xa1, 0x00, 0x00, 0x03, 0x01]

  /** The canonical bytes of the type-descriptor table's artifact: its head and its rows. */
  const TYPE_DESCRIPTOR_BYTES: seq<Byte> := [0xa3, 0x00, 0x02, 0x01, 0x01, 0x02, 0x84] + TYPE_ROW_0
    + TYPE_ROW_1 + TYPE_ROW_2 + TYPE_ROW_3

  const TYPE_ROW_0: seq<Byte> :=
    [0xa4, 0x00, 0x00, 0x01, 0x64, 0x6b, 0x69, 0x6e, 0x64, 0x02, 0xa1, 0x00, 0x00, 0x03, 0x01]
  const TYPE_ROW_1: seq<Byte> :=
    [0xa4, 0x00, 0x01, 0x01, 0x62, 0x6f, 0x66, 0x02, 0xa2, 0x00, 0x07, 0x02, 0x02, 0x03, 0x00]
  const TYPE_ROW_2: seq<Byte> :=
    [0xa4, 0x00, 0x02, 0x01, 0x63, 0x72, 0x65, 0x66, 0x02, 0xa1, 0x00, 0x00, 0x03, 0x00]
  const TYPE_ROW_3: seq<Byte> :=
    [0xa4, 0x00, 0x03, 0x01, 0x64, 0x75, 0x6e, 0x69, 0x74, 0x02, 0xa1, 0x00, 0x00, 0x03, 0x00]

  // ------------------------------------------------------------- maps of small keys

  /** The pairs of a map keyed by small integers: each key its own byte, each value its bytes. */
  ghost predicate Spelled(p: Profile, entries: seq<MapEntry>, depth: nat, pairs: seq<Pair>) {
    && |pairs| == |entries| < 24
    && (forall i :: 0 <= i < |entries| ==>
          && entries[i].key.Int? && 0 <= entries[i].key.n < 24 && pairs[i].key == [entries[i].key.n]
          && EncodeValue(p, entries[i].value, depth) == Ok(pairs[i].val))
    && (forall i, j :: 0 <= i < j < |entries| ==> entries[i].key.n < entries[j].key.n)
  }

  lemma SmallMap(p: Profile, entries: seq<MapEntry>, depth: nat, pairs: seq<Pair>)
    requires depth + 1 <= p.maxDepth && Spelled(p, entries, depth + 1, pairs)
    ensures EncodeValue(p, Map(entries), depth) == Ok([0xa0 + |entries|] + Concat(pairs, |pairs|))
  {
    hide Concat;
    forall i | 0 <= i < |pairs|
      ensures EncodePair(p, entries[0].key.Text?, entries[i], depth + 1) == Ok(pairs[i])
    {
      SmallPair(p, entries[i], depth + 1, pairs[i]);
    }
    forall i, j | 0 <= i < j < |pairs| ensures Less(pairs[i].key, pairs[j].key) {
    }
    hide *;
    MapInverse(p, entries, depth, pairs);
    SmallHead(5, |pairs|);
  }

  lemma SmallHead(major: nat, n: nat)
    requires major < 8 && n < 24
    ensures Head(major, n) == [major * 32 + n]
  {
  }

  lemma SmallInt(p: Profile, n: int, depth: nat)
    requires 0 <= n < 24 && depth <= p.maxDepth
    ensures EncodeValue(p, Int(n), depth) == Ok([n])
  {
  }

  lemma SmallPair(p: Profile, e: MapEntry, depth: nat, pair: Pair)
    requires e.key.Int? && 0 <= e.key.n < 24 && depth <= p.maxDepth
    requires pair.key == [e.key.n] && EncodeValue(p, e.value, depth) == Ok(pair.val)
    ensures EncodePair(p, false, e, depth) == Ok(pair)
  {
    SmallInt(p, e.key.n, depth);
    hide EncodeValue;
  }

  // ------------------------------------------------------------------- names

  predicate IsAscii(s: seq<Byte>) {
    forall i :: 0 <= i < |s| ==> s[i] < 0x80
  }

  /** ASCII is in Normalization Form C. */
  ghost predicate KeepsAscii(p: Profile) {
    forall s :: IsAscii(s) ==> p.isNfc(s)
  }

  lemma {:induction false} AsciiIsUtf8(s: seq<Byte>)
    requires IsAscii(s)
    ensures ValidUtf8(s)
    decreases |s|
  {
    if s != [] {
      AsciiIsUtf8(s[1..]);
    }
  }

  lemma NameEncodes(p: Profile, s: seq<Byte>, depth: nat)
    requires KeepsAscii(p) && IsAscii(s) && |s| < 24 && depth <= p.maxDepth
    ensures EncodeValue(p, Text(s), depth) == Ok([0x60 + |s|] + s)
  {
    hide ValidUtf8;
    AsciiIsUtf8(s);
    SmallHead(3, |s|);
  }

  // ---------------------------------------------------- descriptors, entries, tables

  lemma OnePair(i: Byte, a: seq<Byte>)
    ensures Concat([Keyed([i], a)], 1) == [i] + a
  {
    assert Concat([Keyed([i], a)], 0) == [];
  }

  lemma TwoPairs(i: Byte, a: seq<Byte>, j: Byte, b: seq<Byte>)
    ensures Concat([Keyed([i], a), Keyed([j], b)], 2) == [i] + a + [j] + b
  {
    var pairs := [Keyed([i], a), Keyed([j], b)];
    assert Concat(pairs, 0) == [];
    assert Concat(pairs, 1) == [i] + a;
  }

  lemma ThreePairs(a: seq<Byte>, b: seq<Byte>, c: seq<Byte>)
    ensures Concat([Keyed([0], a), Keyed([1], b), Keyed([2], c)], 3) == [0] + a + [1] + b + [2] + c
  {
    var pairs := [Keyed([0], a), Keyed([1], b), Keyed([2], c)];
    assert Concat(pairs, 0) == [];
    assert Concat(pairs, 1) == [0] + a;
    assert Concat(pairs, 2) == [0] + a + [1] + b;
  }

  lemma FourPairs(a: seq<Byte>, b: seq<Byte>, c: seq<Byte>, d: seq<Byte>)
    ensures Concat([Keyed([0], a), Keyed([1], b), Keyed([2], c), Keyed([3], d)], 4)
         == [0] + a + [1] + b + [2] + c + [3] + d
  {
    var pairs := [Keyed([0], a), Keyed([1], b), Keyed([2], c), Keyed([3], d)];
    assert Concat(pairs, 0) == [];
    assert Concat(pairs, 1) == [0] + a;
    assert Concat(pairs, 2) == [0] + a + [1] + b;
    assert Concat(pairs, 3) == [0] + a + [1] + b + [2] + c;
  }

  lemma ScalarShape(kind: int)
    requires 0 <= kind <= 3
    ensures TypeArtifact(Scalar(kind), []) == Map([Kv(0, Int(kind))])
  {
  }

  lemma RefShape(target: int)
    ensures TypeArtifact(Ref(target), []) == Map([Kv(0, Int(7)), Kv(2, Int(target))])
  {
  }

  lemma ArrayShape(elem: TypeDescriptor)
    ensures TypeArtifact(ArrayOf(elem), []) == Map([Kv(0, Int(6)), Kv(1, TypeArtifact(elem, []))])
  {
  }

  lemma ScalarEncodes(p: Profile, kind: nat, depth: nat)
    requires kind <= 3 && depth + 1 <= p.maxDepth
    ensures EncodeValue(p, TypeArtifact(Scalar(kind), []), depth) == Ok([0xa1, 0x00, kind])
  {
    hide EncodeValue, TypeArtifact, Concat;
    ScalarShape(kind);
    SmallInt(p, kind, depth + 1);
    OnePair(0, [kind]);
    SmallMap(p, [Kv(0, Int(kind))], depth, [Keyed([0], [kind])]);
    assert [0xa1] + ([0] + [kind]) == [0xa1, 0x00, kind];
  }

  lemma RefEncodes(p: Profile, target: nat, depth: nat)
    requires target < 24 && depth + 1 <= p.maxDepth
    ensures EncodeValue(p, TypeArtifact(Ref(target), []), depth) == Ok([0xa2, 0x00, 0x07, 0x02, target])
  {
    hide EncodeValue, TypeArtifact, Concat;
    RefShape(target);
    SmallInt(p, 7, depth + 1);
    SmallInt(p, target, depth + 1);
    TwoPairs(0, [7], 2, [target]);
    SmallMap(p, [Kv(0, Int(7)), Kv(2, Int(target))], depth, [Keyed([0], [7]), Keyed([2], [target])]);
    assert [0xa2] + ([0] + [7] + [2] + [target]) == [0xa2, 0x00, 0x07, 0x02, target];
  }

  lemma ArrayOfEncodes(p: Profile, elem: TypeDescriptor, bytes: seq<Byte>, depth: nat)
    requires depth + 1 <= p.maxDepth && EncodeValue(p, TypeArtifact(elem, []), depth + 1) == Ok(bytes)
    ensures EncodeValue(p, TypeArtifact(ArrayOf(elem), []), depth) == Ok([0xa2, 0x00, 0x06, 0x01] + bytes)
  {
    hide EncodeValue, TypeArtifact, Concat;
    ArrayShape(elem);
    SmallInt(p, 6, depth + 1);
    TwoPairs(0, [6], 1, bytes);
    SmallMap(p, [Kv(0, Int(6)), Kv(1, TypeArtifact(elem, []))], depth, [Keyed([0], [6]), Keyed([1], bytes)]);
    assert [0xa2] + ([0] + [6] + [1] + bytes) == [0xa2, 0x00, 0x06, 0x01] + bytes;
  }

  /** The bytes of an entry around those of its type. */
  function EntryBytes(key: Byte, name: seq<Byte>, typ: seq<Byte>, presence: Byte): seq<Byte>
    requires |name| < 24
  {
    [0xa4] + ([0x00] + [key] + [0x01] + ([0x60 + |name|] + name) + [0x02] + typ + [0x03] + [presence])
  }

  lemma EntryEncodes(p: Profile, e: Entry, typ: seq<Byte>, depth: nat)
    requires depth + 1 <= p.maxDepth && KeepsAscii(p) && IsAscii(e.name) && |e.name| < 24
    requires 0 <= e.key < 24 && 0 <= e.presence < 24
    requires EncodeValue(p, TypeArtifact(e.typ, []), depth + 1) == Ok(typ)
    ensures EncodeValue(p, EntryArtifact(e, []), depth) == Ok(EntryBytes(e.key, e.name, typ, e.presence))
  {
    hide EncodeValue, TypeArtifact, Concat, KeepsAscii, IsAscii;
    var entries := [Kv(0, Int(e.key)), Kv(1, Text(e.name)),
                    Kv(2, TypeArtifact(e.typ, [])), Kv(3, Int(e.presence))];
    var name := [0x60 + |e.name|] + e.name;
    var pairs := [Keyed([0], [e.key]), Keyed([1], name), Keyed([2], typ), Keyed([3], [e.presence])];
    SmallInt(p, e.key, depth + 1);
    NameEncodes(p, e.name, depth + 1);
    SmallInt(p, e.presence, depth + 1);
    FourPairs([e.key], name, typ, [e.presence]);
    SmallMap(p, entries, depth, pairs);
  }

  /** The bytes of a table around those of its entries. */
  lemma TableEncodes(p: Profile, t: FieldTable, body: seq<Byte>)
    requires 2 <= p.maxDepth && 0 <= t.describes < 24 && 0 <= t.version < 24 && |t.entries| < 24
    requires EncodeItems(p, EntryArtifacts(t.entries, []), |t.entries|, 2) == Ok(body)
    ensures Encode(p, TableArtifact(t, []))
         == Ok([0xa3, 0x00, t.describes, 0x01, t.version, 0x02, 0x80 + |t.entries|] + body)
  {
    hide EncodeValue, EncodeItems, EntryArtifacts, Concat;
    var items := Array(EntryArtifacts(t.entries, []));
    var entries := [Kv(0, Int(t.describes)), Kv(1, Int(t.version)), Kv(2, items)];
    var bytes := [0x80 + |t.entries|] + body;
    var pairs := [Keyed([0], [t.describes]), Keyed([1], [t.version]), Keyed([2], bytes)];
    SmallInt(p, t.describes, 1);
    SmallInt(p, t.version, 1);
    SmallArray(p, EntryArtifacts(t.entries, []), 1, body);
    ThreePairs([t.describes], [t.version], bytes);
    SmallMap(p, entries, 0, pairs);
    assert [0xa3] + ([0] + [t.describes] + [1] + [t.version] + [2] + bytes)
        == [0xa3, 0x00, t.describes, 0x01, t.version, 0x02, 0x80 + |t.entries|] + body;
  }

  lemma SmallArray(p: Profile, items: seq<Value>, depth: nat, body: seq<Byte>)
    requires |items| < 24 && depth <= p.maxDepth && EncodeItems(p, items, |items|, depth + 1) == Ok(body)
    ensures EncodeValue(p, Array(items), depth) == Ok([0x80 + |items|] + body)
  {
    hide EncodeItems;
    SmallHead(4, |items|);
  }

  /** One more entry behind those already written. */
  lemma EntryNext(p: Profile, entries: seq<Entry>, k: nat, front: seq<Byte>, typ: seq<Byte>)
    requires k < |entries| && EncodeItems(p, EntryArtifacts(entries, []), k, 2) == Ok(front)
    requires var e := entries[k];
             && 3 <= p.maxDepth && KeepsAscii(p) && IsAscii(e.name) && |e.name| < 24
             && 0 <= e.key < 24 && 0 <= e.presence < 24
             && EncodeValue(p, TypeArtifact(e.typ, []), 3) == Ok(typ)
    ensures var e := entries[k];
            EncodeItems(p, EntryArtifacts(entries, []), k + 1, 2)
            == Ok(front + EntryBytes(e.key, e.name, typ, e.presence))
  {
    hide EncodeValue, EntryArtifact, TypeArtifact, EntryBytes, KeepsAscii, IsAscii;
    EntryEncodes(p, entries[k], typ, 2);
    assert EntryArtifacts(entries, [])[k] == EntryArtifact(entries[k], []);
  }

  lemma NoEntries(p: Profile, entries: seq<Entry>)
    ensures EncodeItems(p, EntryArtifacts(entries, []), 0, 2) == Ok([])
  {
  }

  // -------------------------------------------------------------- the three tables

  const INTEGER := [0xa1, 0x00, 0x00]
  const TEXT := [0xa1, 0x00, 0x02]
  const TO_ENTRY := [0xa2, 0x00, 0x07, 0x02, 0x01]
  const TO_TYPE := [0xa2, 0x00, 0x07, 0x02, 0x02]
  const TO_ENTRIES := [0xa2, 0x00, 0x06, 0x01, 0xa2, 0x00, 0x07, 0x02, 0x01]

  lemma TypesEncode(p: Profile)
    requires p.maxDepth >= 5
    ensures EncodeValue(p, TypeArtifact(Scalar(0), []), 3) == Ok(INTEGER)
    ensures EncodeValue(p, TypeArtifact(Scalar(2), []), 3) == Ok(TEXT)
    ensures EncodeValue(p, TypeArtifact(Ref(2), []), 3) == Ok(TO_TYPE)
    ensures EncodeValue(p, TypeArtifact(ArrayOf(Ref(1)), []), 3) == Ok(TO_ENTRIES)
  {
    hide EncodeValue, TypeArtifact;
    ScalarEncodes(p, 0, 3);
    ScalarEncodes(p, 2, 3);
    RefEncodes(p, 2, 3);
    RefEncodes(p, 1, 4);
    ArrayOfEncodes(p, Ref(1), TO_ENTRY, 3);
    assert [0xa2, 0x00, 0x06, 0x01] + TO_ENTRY == TO_ENTRIES;
  }

  /** A row of the floor in bytes. */
  predicate Row(e: Entry, key: nat, name: seq<Byte>, typ: TypeDescriptor, presence: nat) {
    e == Entry(key, name, typ, presence) && IsAscii(name) && |name| < 24 && key < 24 && presence < 24
  }

  lemma MetaRows()
    ensures MetaTable().describes == 0 && MetaTable().version == 1 && |MetaTable().entries| == 3
    ensures Row(MetaTable().entries[0], 0, [0x64, 0x65, 0x73, 0x63, 0x72, 0x69, 0x62, 0x65, 0x73], Scalar(0), 1)
    ensures Row(MetaTable().entries[1], 1, [0x76, 0x65, 0x72, 0x73, 0x69, 0x6f, 0x6e], Scalar(0), 1)
    ensures Row(MetaTable().entries[2], 2, [0x65, 0x6e, 0x74, 0x72, 0x69, 0x65, 0x73], ArrayOf(Ref(1)), 1)
  {
  }

  lemma EntryRows()
    ensures EntryTable().describes == 1 && EntryTable().version == 1 && |EntryTable().entries| == 4
    ensures Row(EntryTable().entries[0], 0, [0x6b, 0x65, 0x79], Scalar(0), 1)
    ensures Row(EntryTable().entries[1], 1, [0x6e, 0x61, 0x6d, 0x65], Scalar(2), 1)
    ensures Row(EntryTable().entries[2], 2, [0x74, 0x79, 0x70, 0x65], Ref(2), 1)
    ensures Row(EntryTable().entries[3], 3, [0x70, 0x72, 0x65, 0x73, 0x65, 0x6e, 0x63, 0x65], Scalar(0), 1)
  {
  }

  lemma TypeRows()
    ensures TypeDescriptorTable().describes == 2 && TypeDescriptorTable().version == 1
    ensures |TypeDescriptorTable().entries| == 4
    ensures Row(TypeDescriptorTable().entries[0], 0, [0x6b, 0x69, 0x6e, 0x64], Scalar(0), 1)
    ensures Row(TypeDescriptorTable().entries[1], 1, [0x6f, 0x66], Ref(2), 0)
    ensures Row(TypeDescriptorTable().entries[2], 2, [0x72, 0x65, 0x66], Scalar(0), 0)
    ensures Row(TypeDescriptorTable().entries[3], 3, [0x75, 0x6e, 0x69, 0x74], Scalar(0), 0)
  {
  }

  lemma MetaRowBytes0()
    ensures EntryBytes(0, [0x64, 0x65, 0x73, 0x63, 0x72, 0x69, 0x62, 0x65, 0x73], INTEGER, 1) == META_ROW_0
  {
  }

  lemma MetaRowBytes1()
    ensures EntryBytes(1, [0x76, 0x65, 0x72, 0x73, 0x69, 0x6f, 0x6e], INTEGER, 1) == META_ROW_1
  {
  }

  lemma MetaRowBytes2()
    ensures EntryBytes(2, [0x65, 0x6e, 0x74, 0x72, 0x69, 0x65, 0x73], TO_ENTRIES, 1) == META_ROW_2
  {
  }

  lemma EntryRowBytes0()
    ensures EntryBytes(0, [0x6b, 0x65, 0x79], INTEGER, 1) == ENTRY_ROW_0
  {
  }

  lemma EntryRowBytes1()
    ensures EntryBytes(1, [0x6e, 0x61, 0x6d, 0x65], TEXT, 1) == ENTRY_ROW_1
  {
  }

  lemma EntryRowBytes2()
    ensures EntryBytes(2, [0x74, 0x79, 0x70, 0x65], TO_TYPE, 1) == ENTRY_ROW_2
  {
  }

  lemma EntryRowBytes3()
    ensures EntryBytes(3, [0x70, 0x72, 0x65, 0x73, 0x65, 0x6e, 0x63, 0x65], INTEGER, 1) == ENTRY_ROW_3
  {
  }

  lemma TypeRowBytes0()
    ensures EntryBytes(0, [0x6b, 0x69, 0x6e, 0x64], INTEGER, 1) == TYPE_ROW_0
  {
  }

  lemma TypeRowBytes1()
    ensures EntryBytes(1, [0x6f, 0x66], TO_TYPE, 0) == TYPE_ROW_1
  {
  }

  lemma TypeRowBytes2()
    ensures EntryBytes(2, [0x72, 0x65, 0x66], INTEGER, 0) == TYPE_ROW_2
  {
  }

  lemma TypeRowBytes3()
    ensures EntryBytes(3, [0x75, 0x6e, 0x69, 0x74], INTEGER, 0) == TYPE_ROW_3
  {
  }

  lemma MetaEncodes(p: Profile)
    requires p.maxDepth >= 5 && KeepsAscii(p)
    ensures Encode(p, TableArtifact(MetaTable(), [])) == Ok(META_BYTES)
  {
    hide EncodeValue, EncodeItems, EntryArtifacts, TypeArtifact, KeepsAscii, IsAscii, MetaTable, TableArtifact,
         EntryBytes;
    var es := MetaTable().entries;
    MetaRows();
    MetaRowBytes0();
    MetaRowBytes1();
    MetaRowBytes2();
    TypesEncode(p);
    NoEntries(p, es);
    EntryNext(p, es, 0, [], INTEGER);
    EntryNext(p, es, 1, [] + META_ROW_0, INTEGER);
    EntryNext(p, es, 2, [] + META_ROW_0 + META_ROW_1, TO_ENTRIES);
    TableEncodes(p, MetaTable(), [] + META_ROW_0 + META_ROW_1 + META_ROW_2);
    assert META_BYTES
        == [0xa3, 0x00, 0x00, 0x01, 0x01, 0x02, 0x83] + ([] + META_ROW_0 + META_ROW_1 + META_ROW_2);
  }

  lemma EntryTableEncodes(p: Profile)
    requires p.maxDepth >= 5 && KeepsAscii(p)
    ensures Encode(p, TableArtifact(EntryTable(), [])) == Ok(ENTRY_BYTES)
  {
    hide EncodeValue, EncodeItems, EntryArtifacts, TypeArtifact, KeepsAscii, IsAscii, EntryTable, TableArtifact,
         EntryBytes;
    var es := EntryTable().entries;
    EntryRows();
    EntryRowBytes0();
    EntryRowBytes1();
    EntryRowBytes2();
    EntryRowBytes3();
    TypesEncode(p);
    NoEntries(p, es);
    EntryNext(p, es, 0, [], INTEGER);
    EntryNext(p, es, 1, [] + ENTRY_ROW_0, TEXT);
    EntryNext(p, es, 2, [] + ENTRY_ROW_0 + ENTRY_ROW_1, TO_TYPE);
    EntryNext(p, es, 3, [] + ENTRY_ROW_0 + ENTRY_ROW_1 + ENTRY_ROW_2, INTEGER);
    TableEncodes(p, EntryTable(), [] + ENTRY_ROW_0 + ENTRY_ROW_1 + ENTRY_ROW_2 + ENTRY_ROW_3);
    assert ENTRY_BYTES
        == [0xa3, 0x00, 0x01, 0x01, 0x01, 0x02, 0x84] + ([] + ENTRY_ROW_0 + ENTRY_ROW_1 + ENTRY_ROW_2 + ENTRY_ROW_3);
  }

  lemma TypeTableEncodes(p: Profile)
    requires p.maxDepth >= 5 && KeepsAscii(p)
    ensures Encode(p, TableArtifact(TypeDescriptorTable(), [])) == Ok(TYPE_DESCRIPTOR_BYTES)
  {
    hide EncodeValue, EncodeItems, EntryArtifacts, TypeArtifact, KeepsAscii, IsAscii, TypeDescriptorTable,
         TableArtifact, EntryBytes;
    var es := TypeDescriptorTable().entries;
    TypeRows();
    TypeRowBytes0();
    TypeRowBytes1();
    TypeRowBytes2();
    TypeRowBytes3();
    TypesEncode(p);
    NoEntries(p, es);
    EntryNext(p, es, 0, [], INTEGER);
    EntryNext(p, es, 1, [] + TYPE_ROW_0, TO_TYPE);
    EntryNext(p, es, 2, [] + TYPE_ROW_0 + TYPE_ROW_1, INTEGER);
    EntryNext(p, es, 3, [] + TYPE_ROW_0 + TYPE_ROW_1 + TYPE_ROW_2, INTEGER);
    TableEncodes(p, TypeDescriptorTable(), [] + TYPE_ROW_0 + TYPE_ROW_1 + TYPE_ROW_2 + TYPE_ROW_3);
    assert TYPE_DESCRIPTOR_BYTES
        == [0xa3, 0x00, 0x02, 0x01, 0x01, 0x02, 0x84] + ([] + TYPE_ROW_0 + TYPE_ROW_1 + TYPE_ROW_2 + TYPE_ROW_3);
  }

  // ------------------------------------------------------------------ the theorem

  /** A value has no more data items than its encoding has bytes. */
  lemma CountWithinBytes(p: Profile, v: Value)
    requires Encode(p, v).Ok? && |Encode(p, v).value| < INT_LIMIT
    ensures Count(v) <= |Encode(p, v).value|
  {
    hide EncodeValue, DecodeItem, Norm, Count;
    var q := p.(maxItems := Count(v));
    EncodeKeeps(p, q, v, 0);
    ReadWhole(q, v);
    ItemSpendsBytes(q, Encode(p, v).value, 0, 0, 0);
  }

  lemma LoadsFromBytes(p: Profile, t: FieldTable, data: seq<Byte>, held: Held)
    requires HoldsFloor(held) && IsFloor(t) && Encode(p, TableArtifact(t, [])) == Ok(data)
    requires |data| <= p.maxItems && |data| < INT_LIMIT
    ensures LoadsAs(p, data, t, held)
  {
    hide EncodeValue, TableArtifact, Count, HoldsFloor, IsFloor, LoadsAs, WellFormedTable;
    CountWithinBytes(p, TableArtifact(t, []));
    FloorIsWellFormed(t);
    TableSurvivesTheWire(p, t, [], held);
  }

  /**
   Under any registry holding the floor, the three byte strings load as what it answers for the
   artifact types 0, 1 and 2 at version 1.
   */
  lemma FloorLoadsFromItsBytes(p: Profile, held: Held)
    requires HoldsFloor(held) && p.maxDepth >= 5 && p.maxItems >= 100 && KeepsAscii(p)
    ensures LookupTable(held, 0, 1).Some? && LoadsAs(p, META_BYTES, LookupTable(held, 0, 1).value, held)
    ensures LookupTable(held, 1, 1).Some? && LoadsAs(p, ENTRY_BYTES, LookupTable(held, 1, 1).value, held)
    ensures LookupTable(held, 2, 1).Some? && LoadsAs(p, TYPE_DESCRIPTOR_BYTES, LookupTable(held, 2, 1).value, held)
  {
    hide EncodeValue, TableArtifact, KeepsAscii, HoldsFloor, LoadsAs, MetaTable, EntryTable, TypeDescriptorTable;
    FloorIsHeld(held);
    MetaEncodes(p);
    EntryTableEncodes(p);
    TypeTableEncodes(p);
    LoadsFromBytes(p, MetaTable(), META_BYTES, held);
    LoadsFromBytes(p, EntryTable(), ENTRY_BYTES, held);
    LoadsFromBytes(p, TypeDescriptorTable(), TYPE_DESCRIPTOR_BYTES, held);
  }
}
