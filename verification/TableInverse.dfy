/** Reading a field table as the inverse of printing it, in both directions. */
module TableInverse {
  import opened ByteOrder
  import opened CanonicalDomain
  import opened Conformance
  import opened Decoding
  import opened Encoding
  import opened FieldTables
  import opened Floor
  import opened FloorClosure
  import opened Interpretation
  import opened Inverse
  import opened Lossless
  import opened NormalForm
  import opened Results
  import opened RoundTrip
  import opened TablePrinting
  import opened Tables
  import opened Values

  // ------------------------------------------------- what reading produces is well formed

  lemma {:induction false} ProjectedTypeIsWellFormed(inst: Instance)
    requires ProjectDescriptor(inst).Ok?
    ensures OwnsItsFields(ProjectDescriptor(inst).value) && TypeFits(ProjectDescriptor(inst).value)
    decreases inst
  {
    if inst.Has(1) {
      assert inst.fields[1].inst < inst.fields[1] < inst;
      ProjectedTypeIsWellFormed(inst.fields[1].inst);
    }
  }

  lemma {:induction false} ProjectedEntriesAreWellFormed(raw: seq<Field>, k: nat)
    requires k <= |raw| && ProjectEntries(raw, k).Ok?
    ensures forall i :: 0 <= i < k ==>
              EntryFits(ProjectEntries(raw, k).value[i]) && OwnsItsFields(ProjectEntries(raw, k).value[i].typ)
  {
    hide ProjectDescriptor, TypeFits, OwnsItsFields;
    if k > 0 {
      ProjectedEntriesAreWellFormed(raw, k - 1);
      ProjectedTypeIsWellFormed(raw[k - 1].inst.RefAt(2).value);
    }
  }

  /**
   Every table read is well formed: nonempty, densely keyed, so a key is its entry's index,
   and its known kinds own exactly their fields.
   */
  lemma ParsedIsWellFormed(v: Value, held: Held)
    requires ParseFieldTable(v, held).Ok?
    ensures var t := ParseFieldTable(v, held).value;
            && WellFormedTable(t) && |t.entries| >= 1
            && forall k: int :: EntryByKey(t.entries, k) == if 0 <= k < |t.entries| then Some(t.entries[k]) else None
  {
    var t := ParseFieldTable(v, held).value;
    hide ProjectEntries, MetaTable, EntryFits, OwnsItsFields;
    var raw := OrEmpty(Interpret(MetaTable(), v, held).value.ArrayAt(2));
    ProjectedEntriesAreWellFormed(raw, |raw|);
    forall k: int
      ensures EntryByKey(t.entries, k) == if 0 <= k < |t.entries| then Some(t.entries[k]) else None
    {
      DenseLookup(t.entries, 0, k);
    }
  }

  /** So the tables that can be read are exactly the well-formed ones. */
  lemma ReadableIsWellFormed(t: FieldTable, held: Held)
    requires HoldsFloor(held)
    ensures WellFormedTable(t) <==> exists v :: ParseFieldTable(v, held) == Ok(t)
  {
    if WellFormedTable(t) {
      PrintThenParse(t, [], held);
    }
    if v :| ParseFieldTable(v, held) == Ok(t) {
      ParsedIsWellFormed(v, held);
    }
  }

  // ------------------------------------- an instance shows how its artifact was spelled

  /** A descriptor instance is the one its projection stands for, in some spelling. */
  lemma {:induction false} TypeDetermined(inst: Instance, held: Held) returns (z: Levels)
    requires HoldsFloor(held) && TypedInstance(TypeDescriptorTable(), inst, held, 1)
    requires ProjectDescriptor(inst).Ok?
    ensures inst == TypeInstance(ProjectDescriptor(inst).value, z)
    decreases inst
  {
    hide HoldsFloor, TypeInstance, TypeDescriptorTable, TypedInstance, ProjectDescriptor, WritesTarget, WritesUnit;
    var td := ProjectDescriptor(inst).value;
    DescriptorShape(inst, held);
    ProjectionKeeps(inst);
    var inner: Levels := [];
    if inst.Has(1) {
      assert inst.fields[1].inst < inst.fields[1] < inst;
      inner := TypeDetermined(inst.fields[1].inst, held);
    }
    z := [Zeros(inst.Has(2), inst.Has(3))] + inner;
    assert Below(z) == inner;
    TypeInstanceFields(td, z);
    TypeInstanceTable(td, z);
    TypedTable(TypeDescriptorTable(), inst, held);
    WritesWhatItHas(inst, z);
    SameDescriptor(inst, TypeInstance(td, z));
  }

  /** What a projected descriptor takes from the fields present. */
  lemma ProjectionKeeps(inst: Instance)
    requires ProjectDescriptor(inst).Ok?
    ensures var td := ProjectDescriptor(inst).value;
            && inst.IntAt(0) == Some(td.kind)
            && (inst.Has(1) ==> inst.fields[1].FRef? && td.elem.Some?
                                && ProjectDescriptor(inst.fields[1].inst) == Ok(td.elem.value))
            && (inst.Has(2) ==> inst.IntAt(2) == Some(td.target))
            && (inst.Has(3) ==> inst.IntAt(3) == Some(td.unit))
  {
  }

  lemma TypedTable(table: FieldTable, inst: Instance, held: Held)
    requires TypedInstance(table, inst, held, 1)
    ensures inst.table == table && inst.version == 1
  {
  }

  /** Spelled as it was, a descriptor writes exactly the fields it was read from. */
  lemma WritesWhatItHas(inst: Instance, z: Levels)
    requires ProjectDescriptor(inst).Ok? && Top(z) == Zeros(inst.Has(2), inst.Has(3))
    ensures var td := ProjectDescriptor(inst).value;
            && (inst.Has(1) <==> td.elem.Some?)
            && (inst.Has(2) <==> WritesTarget(td, z)) && (inst.Has(3) <==> WritesUnit(td, z))
  {
  }

  lemma SameFields(a: Instance, b: Instance)
    requires a.table == b.table && a.version == b.version
    requires forall k :: a.Has(k) <==> b.Has(k)
    requires forall k :: k in a.fields && k in b.fields ==> a.fields[k] == b.fields[k]
    ensures a == b
  {
    forall k ensures k in a.fields <==> k in b.fields {
      assert a.Has(k) <==> b.Has(k);
    }
    assert a.fields.Keys == b.fields.Keys;
    assert forall k :: k in a.fields ==> k in b.fields && a.fields[k] == b.fields[k];
    assert a.fields == b.fields;
  }

  /** Descriptor instances with the same accessor results are the same instance. */
  lemma SameDescriptor(a: Instance, b: Instance)
    requires a.table == b.table && a.version == b.version
    requires forall k :: a.Has(k) ==> 0 <= k < 4
    requires forall k :: b.Has(k) ==> 0 <= k < 4
    requires a.IntAt(0).Some? && a.IntAt(0) == b.IntAt(0)
    requires (a.Has(1) <==> b.Has(1)) && (a.Has(1) ==> a.RefAt(1).Some? && a.RefAt(1) == b.RefAt(1))
    requires (a.Has(2) <==> b.Has(2)) && (a.Has(2) ==> a.IntAt(2).Some? && a.IntAt(2) == b.IntAt(2))
    requires (a.Has(3) <==> b.Has(3)) && (a.Has(3) ==> a.IntAt(3).Some? && a.IntAt(3) == b.IntAt(3))
    ensures a == b
  {
    forall k | k in a.fields && k in b.fields ensures a.fields[k] == b.fields[k] {
      assert a.Has(k) && k in {0, 1, 2, 3};
    }
    SameFields(a, b);
  }

  lemma TypeInstanceTable(td: TypeDescriptor, z: Levels)
    ensures TypeInstance(td, z).table == TypeDescriptorTable() && TypeInstance(td, z).version == 1
  {
  }

  lemma EntryDetermined(inst: Instance, held: Held) returns (z: Levels)
    requires HoldsFloor(held) && TypedInstance(EntryTable(), inst, held, 1)
    requires ProjectEntry(inst).Ok?
    ensures inst == EntryInstance(ProjectEntry(inst).value, z)
  {
    hide HoldsFloor, TypeInstance, EntryTable, ProjectDescriptor, TypedInstance;
    EntryShape(inst, held);
    TypedTable(EntryTable(), inst, held);
    z := TypeDetermined(inst.fields[2].inst, held);
    var other := EntryInstance(ProjectEntry(inst).value, z);
    assert inst.Has(0) && inst.Has(1) && inst.Has(2) && inst.Has(3);
    SameFields(inst, other);
  }

  lemma {:induction false} EntriesDetermined(raw: seq<Field>, k: nat, held: Held) returns (zs: Spelling)
    requires HoldsFloor(held) && k <= |raw|
    requires forall i :: 0 <= i < |raw| ==> raw[i].FRef? && TypedInstance(EntryTable(), raw[i].inst, held, 1)
    requires ProjectEntries(raw, k).Ok?
    ensures |zs| == k && EntryFields(ProjectEntries(raw, k).value, zs) == raw[..k]
  {
    hide HoldsFloor, EntryTable, ProjectEntry, EntryInstance, TypedInstance;
    if k == 0 {
      zs := [];
    } else {
      var front := EntriesDetermined(raw, k - 1, held);
      var last := EntryDetermined(raw[k - 1].inst, held);
      zs := front + [last];
      OneMoreField(ProjectEntries(raw, k - 1).value, front, ProjectEntry(raw[k - 1].inst).value, last);
      assert raw[..k] == raw[..k - 1] + [raw[k - 1]];
    }
  }

  lemma OneMoreField(entries: seq<Entry>, zs: Spelling, e: Entry, z: Levels)
    requires |zs| == |entries|
    ensures EntryFields(entries + [e], zs + [z]) == EntryFields(entries, zs) + [FRef(EntryInstance(e, z))]
  {
    hide EntryInstance;
  }

  lemma TableDetermined(inst: Instance, held: Held) returns (zs: Spelling)
    requires HoldsFloor(held) && TypedInstance(MetaTable(), inst, held, 1)
    requires ProjectTable(inst).Ok?
    ensures inst == TableInstance(ProjectTable(inst).value, zs)
  {
    hide HoldsFloor, EntryTable, MetaTable, ProjectEntries, EntryFields, DenseKeys, TypedInstance;
    MetaShape(inst, held);
    TypedTable(MetaTable(), inst, held);
    var raw := inst.ArrayAt(2).value;
    zs := EntriesDetermined(raw, |raw|, held);
    assert raw[..|raw|] == raw;
    var other := TableInstance(ProjectTable(inst).value, zs);
    assert inst.Has(0) && inst.Has(1) && inst.Has(2);
    SameFields(inst, other);
  }

  // ------------------------------------------------------------- the theorems

  /** A decoder output that reads as a table is that table printed, in some spelling. */
  lemma ParseThenPrint(v: Value, held: Held) returns (zs: Spelling)
    requires HoldsFloor(held) && Normal(v) && ParseFieldTable(v, held).Ok?
    ensures TableArtifact(ParseFieldTable(v, held).value, zs) == v
  {
    hide InterpretMap, ProjectTable, TableArtifact, TableInstance, MetaTable, HoldsFloor,
         Normal, TypedInstance, EraseInstance, Norm;
    var t := ParseFieldTable(v, held).value;
    var inst := Interpret(MetaTable(), v, held).value;
    MetaVersion();
    MapIsTyped(MetaTable(), v, held, 1);
    zs := TableDetermined(inst, held);
    MapErasesBack(MetaTable(), v, held, 1);
    TableInterprets(t, zs, held);
    TableArtifactIsNormal(t, zs);
    MapErasesBack(MetaTable(), TableArtifact(t, zs), held, 1);
  }

  /** The artifacts a table is read from are exactly its spellings. */
  lemma ReadExactlyFromSpellings(v: Value, t: FieldTable, held: Held)
    requires HoldsFloor(held) && Normal(v) && WellFormedTable(t)
    ensures ParseFieldTable(v, held) == Ok(t) <==> exists zs :: TableArtifact(t, zs) == v
  {
    hide ParseFieldTable, TableArtifact, WellFormedTable, HoldsFloor, Normal;
    if ParseFieldTable(v, held) == Ok(t) {
      var zs := ParseThenPrint(v, held);
    }
    if zs :| TableArtifact(t, zs) == v {
      PrintThenParse(t, zs, held);
    }
  }

  /** The artifacts that read as a table at all are exactly the spellings of the well-formed ones. */
  lemma ReadableArtifactsArePrinted(v: Value, held: Held)
    requires HoldsFloor(held) && Normal(v)
    ensures ParseFieldTable(v, held).Ok? <==> exists t, zs :: WellFormedTable(t) && TableArtifact(t, zs) == v
  {
    hide ParseFieldTable, TableArtifact, WellFormedTable, HoldsFloor, Normal;
    if ParseFieldTable(v, held).Ok? {
      ParsedIsWellFormed(v, held);
      var zs := ParseThenPrint(v, held);
    }
    if t, zs :| WellFormedTable(t) && TableArtifact(t, zs) == v {
      PrintThenParse(t, zs, held);
    }
  }

  /** The input is accepted and loads as the table. */
  ghost predicate LoadsAs(p: Profile, data: seq<Byte>, t: FieldTable, held: Held) {
    Decode(p, data).Ok? && ParseFieldTable(Decode(p, data).value, held) == Ok(t)
  }

  /** The bytes that load as a table are exactly the encodings of its spellings the item bound covers. */
  lemma BytesOfTable(p: Profile, data: seq<Byte>, t: FieldTable, held: Held)
    requires |data| < INT_LIMIT && HoldsFloor(held) && WellFormedTable(t)
    ensures LoadsAs(p, data, t, held)
       <==> exists zs :: Encode(p, TableArtifact(t, zs)) == Ok(data) && Count(TableArtifact(t, zs)) <= p.maxItems
  {
    hide ParseFieldTable, EncodeValue, Decode, HoldsFloor, WellFormedTable, TableArtifact, Normal;
    if LoadsAs(p, data, t, held) {
      DecodeReturnsCanonical(p, data);
      DecodeThenEncode(p, data);
      var zs := ParseThenPrint(Decode(p, data).value, held);
    }
    if zs :| Encode(p, TableArtifact(t, zs)) == Ok(data) && Count(TableArtifact(t, zs)) <= p.maxItems {
      TableSurvivesTheWire(p, t, zs, held);
    }
  }

  /** The value can be written, and its bytes are within what a decoder takes. */
  ghost predicate Travels(p: Profile, v: Value) {
    Encode(p, v).Ok? && |Encode(p, v).value| < INT_LIMIT && Count(v) <= p.maxItems
  }

  /** A well-formed table survives being written to bytes, in any spelling, and loaded from them. */
  lemma TableSurvivesTheWire(p: Profile, t: FieldTable, zs: Spelling, held: Held)
    requires HoldsFloor(held) && WellFormedTable(t) && Travels(p, TableArtifact(t, zs))
    ensures LoadsAs(p, Encode(p, TableArtifact(t, zs)).value, t, held)
  {
    hide ParseFieldTable, EncodeValue, DecodeItem, HoldsFloor, WellFormedTable, TableArtifact, Norm, Normal;
    EncodeThenDecode(p, TableArtifact(t, zs));
    TableArtifactIsNormal(t, zs);
    NormalIsFixed(TableArtifact(t, zs));
    PrintThenParse(t, zs, held);
  }

  // ----------------------------------------------- exactly when there is one spelling

  /**
   The descriptor says which fields it was read from: at every nesting level its kind is one
   this version defines, or neither of its codes is the zero that an absent field also gives.
   */
  predicate ShowsItsFields(td: TypeDescriptor) {
    && (KnownKind(td.kind) || (td.target != 0 && td.unit != 0))
    && (td.elem.Some? ==> ShowsItsFields(td.elem.value))
  }

  predicate TableShowsItsFields(t: FieldTable) {
    forall i :: 0 <= i < |t.entries| ==> ShowsItsFields(t.entries[i].typ)
  }

  lemma {:induction false} TypeSpelledOnce(td: TypeDescriptor, z: Levels)
    requires ShowsItsFields(td)
    ensures TypeArtifact(td, z) == TypeArtifact(td, [])
    decreases td
  {
    if td.elem.Some? {
      TypeSpelledOnce(td.elem.value, Below(z));
    }
  }

  lemma TableSpelledOnce(t: FieldTable, zs: Spelling)
    requires TableShowsItsFields(t)
    ensures TableArtifact(t, zs) == TableArtifact(t, [])
  {
    hide TypeArtifact, ShowsItsFields;
    forall i | 0 <= i < |t.entries| ensures EntryArtifacts(t.entries, zs)[i] == EntryArtifacts(t.entries, [])[i] {
      TypeSpelledOnce(t.entries[i].typ, Of(zs, i));
    }
    assert EntryArtifacts(t.entries, zs) == EntryArtifacts(t.entries, []);
  }

  /** The spelling that writes every zero. */
  function AllZeros(td: TypeDescriptor): Levels {
    [Zeros(true, true)] + if td.elem.Some? then AllZeros(td.elem.value) else []
  }

  function Fullest(t: FieldTable): Spelling {
    seq(|t.entries|, i requires 0 <= i < |t.entries| => AllZeros(t.entries[i].typ))
  }

  /** Writing every zero makes a difference just where the descriptor does not show its fields. */
  lemma {:induction false} FullTypeDiffers(td: TypeDescriptor)
    requires !ShowsItsFields(td)
    ensures TypeArtifact(td, AllZeros(td)) != TypeArtifact(td, [])
    decreases td
  {
    var short, long := TypeArtifact(td, []).entries, TypeArtifact(td, AllZeros(td)).entries;
    if KnownKind(td.kind) || (td.target != 0 && td.unit != 0) {
      FullTypeDiffers(td.elem.value);
      assert Below(AllZeros(td)) == AllZeros(td.elem.value);
      assert short[1].value == TypeArtifact(td.elem.value, []);
      assert long[1].value == TypeArtifact(td.elem.value, AllZeros(td.elem.value));
    } else {
      assert |short| < |long|;
    }
  }

  lemma FullTableDiffers(t: FieldTable)
    requires !TableShowsItsFields(t)
    ensures TableArtifact(t, Fullest(t)) != TableArtifact(t, [])
  {
    hide TypeArtifact, ShowsItsFields, AllZeros;
    var i :| 0 <= i < |t.entries| && !ShowsItsFields(t.entries[i].typ);
    FullTypeDiffers(t.entries[i].typ);
    var short, long := EntryArtifacts(t.entries, []), EntryArtifacts(t.entries, Fullest(t));
    assert short[i].entries[2].value == TypeArtifact(t.entries[i].typ, []);
    assert long[i].entries[2].value == TypeArtifact(t.entries[i].typ, AllZeros(t.entries[i].typ));
    assert TableArtifact(t, []).entries[2].value == Array(short);
    assert TableArtifact(t, Fullest(t)).entries[2].value == Array(long);
  }

  /** At most one accepted input loads as the table. */
  ghost predicate LoadedFromOne(p: Profile, t: FieldTable, held: Held) {
    forall a, b :: |a| < INT_LIMIT && |b| < INT_LIMIT && LoadsAs(p, a, t, held) && LoadsAs(p, b, t, held) ==> a == b
  }

  /**
   A table whose plainest and fullest spellings travel is loaded from one byte string only,
   exactly when each of its descriptors shows its fields: at every level the kind is known, or
   both codes are other than zero.
   */
  lemma LoadedFromOneExactly(p: Profile, t: FieldTable, held: Held)
    requires HoldsFloor(held) && WellFormedTable(t)
    requires Travels(p, TableArtifact(t, [])) && Travels(p, TableArtifact(t, Fullest(t)))
    ensures LoadedFromOne(p, t, held) <==> TableShowsItsFields(t)
  {
    hide LoadsAs, Encode, TableArtifact, TableShowsItsFields, WellFormedTable, HoldsFloor, Fullest;
    if TableShowsItsFields(t) {
      forall a, b | |a| < INT_LIMIT && |b| < INT_LIMIT && LoadsAs(p, a, t, held) && LoadsAs(p, b, t, held)
        ensures a == b
      {
        TableDeterminesItsBytes(p, a, t, [], held);
        TableDeterminesItsBytes(p, b, t, [], held);
      }
    } else {
      FullTableDiffers(t);
      TableSurvivesTheWire(p, t, [], held);
      TableSurvivesTheWire(p, t, Fullest(t), held);
      DifferentArtifactsDifferentBytes(p, t, [], Fullest(t));
    }
  }

  lemma DifferentArtifactsDifferentBytes(p: Profile, t: FieldTable, xs: Spelling, ys: Spelling)
    requires Travels(p, TableArtifact(t, xs)) && Travels(p, TableArtifact(t, ys))
    requires TableArtifact(t, xs) != TableArtifact(t, ys)
    ensures Encode(p, TableArtifact(t, xs)) != Encode(p, TableArtifact(t, ys))
  {
    hide EncodeValue, TableArtifact, Norm, Normal;
    TableArtifactIsNormal(t, xs);
    TableArtifactIsNormal(t, ys);
    NormalIsFixed(TableArtifact(t, xs));
    NormalIsFixed(TableArtifact(t, ys));
    EqualBytesEqualForms(p, TableArtifact(t, xs), TableArtifact(t, ys));
  }

  /** A table that shows its fields determines the bytes it was loaded from, whatever the spelling. */
  lemma TableDeterminesItsBytes(p: Profile, data: seq<Byte>, t: FieldTable, zs: Spelling, held: Held)
    requires HoldsFloor(held) && LoadsAs(p, data, t, held) && TableShowsItsFields(t)
    ensures Encode(p, TableArtifact(t, zs)) == Ok(data)
  {
    hide ParseFieldTable, EncodeValue, Decode, HoldsFloor, TableShowsItsFields, TableArtifact, Normal;
    DecodeReturnsCanonical(p, data);
    DecodeThenEncode(p, data);
    var ys := ParseThenPrint(Decode(p, data).value, held);
    TableSpelledOnce(t, ys);
    TableSpelledOnce(t, zs);
  }

  /** An instance of the other case: kind 99, with no codes and with both zeros written out. */
  lemma UnknownKindsCollapse(held: Held)
    requires HoldsFloor(held)
    ensures var t := FieldTable(1024, 1, [Entry(0, [], TypeDescriptor(99, None, 0, 0), OPTIONAL)]);
            && TableArtifact(t, Fullest(t)) != TableArtifact(t, [])
            && ParseFieldTable(TableArtifact(t, Fullest(t)), held) == Ok(t)
            && ParseFieldTable(TableArtifact(t, []), held) == Ok(t)
  {
    hide ParseFieldTable, TableArtifact, HoldsFloor, Fullest;
    var t := FieldTable(1024, 1, [Entry(0, [], TypeDescriptor(99, None, 0, 0), OPTIONAL)]);
    assert !ShowsItsFields(t.entries[0].typ);
    FullTableDiffers(t);
    PrintThenParse(t, Fullest(t), held);
    PrintThenParse(t, [], held);
  }

  /** A table is recovered from its artifact exactly when it is well formed. */
  lemma RecoveredExactlyWhenWellFormed(t: FieldTable, zs: Spelling, held: Held)
    requires HoldsFloor(held)
    ensures ParseFieldTable(TableArtifact(t, zs), held) == Ok(t) <==> WellFormedTable(t)
  {
    hide ParseFieldTable, TableArtifact, WellFormedTable, HoldsFloor;
    if ParseFieldTable(TableArtifact(t, zs), held) == Ok(t) {
      ParsedIsWellFormed(TableArtifact(t, zs), held);
    } else if WellFormedTable(t) {
      PrintThenParse(t, zs, held);
    }
  }

  /** The floor is its own fixed point: each floor table is read back from its artifact. */
  lemma FloorIsAFixedPoint(t: FieldTable, zs: Spelling, held: Held)
    requires HoldsFloor(held) && IsFloor(t)
    ensures ParseFieldTable(TableArtifact(t, zs), held) == Ok(t)
  {
    FloorIsWellFormed(t);
    PrintThenParse(t, zs, held);
  }

  lemma FloorIsWellFormed(t: FieldTable)
    requires IsFloor(t)
    ensures WellFormedTable(t)
  {
  }
}
