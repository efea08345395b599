/** The floor closure: the three tables a node is born knowing (schema/floor.go). */
module Floor {
  import opened ByteOrder
  import opened Results
  import opened Tables

  const ARTIFACT_FIELD_TABLE := 0
  const ARTIFACT_ENTRY := 1
  const ARTIFACT_TYPE_DESCRIPTOR := 2
  const OPTIONAL := 0
  const REQUIRED := 1

  /** A name's bytes; the floor's names are plain ASCII. */
  function Ascii(s: string): seq<Byte>
    requires forall i :: 0 <= i < |s| ==> s[i] as int < 128
  {
    seq(|s|, i requires 0 <= i < |s| => s[i] as int)
  }

  function Scalar(kind: int): TypeDescriptor {
    TypeDescriptor(kind, None, 0, 0)
  }

  function Ref(artifact: int): TypeDescriptor {
    TypeDescriptor(KIND_REF, None, artifact, 0)
  }

  function ArrayOf(elem: TypeDescriptor): TypeDescriptor {
    TypeDescriptor(KIND_ARRAY, Some(elem), 0, 0)
  }

  function MetaTable(): FieldTable {
    FieldTable(ARTIFACT_FIELD_TABLE, 1, [
      Entry(0, Ascii("describes"), Scalar(KIND_INT), REQUIRED),
      Entry(1, Ascii("version"), Scalar(KIND_INT), REQUIRED),
      Entry(2, Ascii("entries"), ArrayOf(Ref(ARTIFACT_ENTRY)), REQUIRED)])
  }

  function EntryTable(): FieldTable {
    FieldTable(ARTIFACT_ENTRY, 1, [
      Entry(0, Ascii("key"), Scalar(KIND_INT), REQUIRED),
      Entry(1, Ascii("name"), Scalar(KIND_TEXT), REQUIRED),
      Entry(2, Ascii("type"), Ref(ARTIFACT_TYPE_DESCRIPTOR), REQUIRED),
      Entry(3, Ascii("presence"), Scalar(KIND_INT), REQUIRED)])
  }

  function TypeDescriptorTable(): FieldTable {
    FieldTable(ARTIFACT_TYPE_DESCRIPTOR, 1, [
      Entry(0, Ascii("kind"), Scalar(KIND_INT), REQUIRED),
      Entry(1, Ascii("of"), Ref(ARTIFACT_TYPE_DESCRIPTOR), OPTIONAL),
      Entry(2, Ascii("ref"), Scalar(KIND_INT), OPTIONAL),
      Entry(3, Ascii("unit"), Scalar(KIND_INT), OPTIONAL)])
  }

  function FloorTables(): Held {
    map[RegKey(ARTIFACT_FIELD_TABLE, 1) := MetaTable(),
        RegKey(ARTIFACT_ENTRY, 1) := EntryTable(),
        RegKey(ARTIFACT_TYPE_DESCRIPTOR, 1) := TypeDescriptorTable()]
  }

  /** The registry every caller starts from, built by successive additions. */
  method DefaultRegistry() returns (reg: Registry)
    ensures fresh(reg) && reg.tables == FloorTables()
    ensures AddAll(map[], [MetaTable(), EntryTable(), TypeDescriptorTable()]) == Some(reg.tables)
  {
    reg := new Registry();
    var first := reg.Add(MetaTable());
    var second := reg.Add(EntryTable());
    var third := reg.Add(TypeDescriptorTable());
    AddAllStep(map[], [], MetaTable());
    AddAllStep(map[], [MetaTable()], EntryTable());
    AddAllStep(map[], [MetaTable(), EntryTable()], TypeDescriptorTable());
    assert [] + [MetaTable()] == [MetaTable()];
    assert [MetaTable()] + [EntryTable()] == [MetaTable(), EntryTable()];
  }

  lemma AddAllStep(held: Held, ts: seq<FieldTable>, t: FieldTable)
    requires AddAll(held, ts).Some?
    ensures AddAll(held, ts + [t]) == AddTable(AddAll(held, ts).value, t)
  {
    assert (ts + [t])[..|ts|] == ts;
  }

  /** The floor's entries by key. */
  lemma FloorLookups()
    ensures forall k: int :: EntryByKey(MetaTable().entries, k)
                          == if 0 <= k < 3 then Some(MetaTable().entries[k]) else None
    ensures forall k: int :: EntryByKey(EntryTable().entries, k)
                          == if 0 <= k < 4 then Some(EntryTable().entries[k]) else None
    ensures forall k: int :: EntryByKey(TypeDescriptorTable().entries, k)
                          == if 0 <= k < 4 then Some(TypeDescriptorTable().entries[k]) else None
  {
    forall k: int
      ensures EntryByKey(MetaTable().entries, k) == if 0 <= k < 3 then Some(MetaTable().entries[k]) else None
      ensures EntryByKey(EntryTable().entries, k) == if 0 <= k < 4 then Some(EntryTable().entries[k]) else None
      ensures EntryByKey(TypeDescriptorTable().entries, k)
           == if 0 <= k < 4 then Some(TypeDescriptorTable().entries[k]) else None
    {
      DenseLookup(MetaTable().entries, 0, k);
      DenseLookup(EntryTable().entries, 0, k);
      DenseLookup(TypeDescriptorTable().entries, 0, k);
    }
  }

  /** The floor's field types by key. */
  lemma FloorTypes()
    ensures forall k :: 0 <= k < 4 ==> EntryByKey(TypeDescriptorTable().entries, k).Some?
    ensures forall k :: k in {0, 2, 3} ==> EntryByKey(TypeDescriptorTable().entries, k).value.typ == Scalar(KIND_INT)
    ensures EntryByKey(TypeDescriptorTable().entries, 1).value.typ == Ref(ARTIFACT_TYPE_DESCRIPTOR)
    ensures forall k :: 0 <= k < 4 ==> EntryByKey(EntryTable().entries, k).Some?
    ensures forall k :: k in {0, 3} ==> EntryByKey(EntryTable().entries, k).value.typ == Scalar(KIND_INT)
    ensures EntryByKey(EntryTable().entries, 1).value.typ == Scalar(KIND_TEXT)
    ensures EntryByKey(EntryTable().entries, 2).value.typ == Ref(ARTIFACT_TYPE_DESCRIPTOR)
    ensures forall k :: 0 <= k < 3 ==> EntryByKey(MetaTable().entries, k).Some?
    ensures forall k :: k in {0, 1} ==> EntryByKey(MetaTable().entries, k).value.typ == Scalar(KIND_INT)
    ensures EntryByKey(MetaTable().entries, 2).value.typ == ArrayOf(Ref(ARTIFACT_ENTRY))
  {
    FloorLookups();
  }
}
