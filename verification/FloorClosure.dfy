/**
 The floor is closed: under any registry that holds it, a field table is read the same way,
 refused only for its own reasons, and safe to interpret with afterwards.
 */
module FloorClosure {
  import opened Conformance
  import opened FieldTables
  import opened Floor
  import opened Growth
  import opened Interpretation
  import opened Results
  import opened Tables
  import opened Values

  ghost predicate HoldsFloor(held: Held) {
    Grown(FloorTables(), held)
  }

  predicate IsFloor(t: FieldTable) {
    t == MetaTable() || t == EntryTable() || t == TypeDescriptorTable()
  }

  lemma FloorIsHeld(held: Held)
    requires HoldsFloor(held)
    ensures LookupTable(held, ARTIFACT_FIELD_TABLE, 1) == Some(MetaTable())
    ensures LookupTable(held, ARTIFACT_ENTRY, 1) == Some(EntryTable())
    ensures LookupTable(held, ARTIFACT_TYPE_DESCRIPTOR, 1) == Some(TypeDescriptorTable())
  {
    assert RegKey(ARTIFACT_FIELD_TABLE, 1) in FloorTables();
    assert RegKey(ARTIFACT_ENTRY, 1) in FloorTables();
    assert RegKey(ARTIFACT_TYPE_DESCRIPTOR, 1) in FloorTables();
  }

  // --------------------------------- what interpretation on the floor refuses with

  /** A type the floor uses: a scalar, or an array or ref that stays inside the floor. */
  predicate ClosedType(td: TypeDescriptor) {
    || td.kind in {KIND_INT, KIND_TEXT}
    || (td.kind == KIND_REF && td.target in {ARTIFACT_FIELD_TABLE, ARTIFACT_ENTRY, ARTIFACT_TYPE_DESCRIPTOR})
    || (td.kind == KIND_ARRAY && td.elem.Some? && ClosedType(td.elem.value))
  }

  lemma FloorTypesAreClosed(t: FieldTable)
    requires IsFloor(t)
    ensures forall e :: e in t.entries ==> ClosedType(e.typ)
  {
  }

  predicate StructuralReason(r: Reason) {
    r == UnknownField || r == BadFieldKey || r == TypeMismatch
  }

  ghost predicate StructuralOnly<T>(r: Result<T, Reason>) {
    r.Err? ==> StructuralReason(r.error)
  }

  lemma {:induction false} FloorMapRefusals(t: FieldTable, v: Value, held: Held)
    requires HoldsFloor(held) && IsFloor(t)
    ensures StructuralOnly(InterpretMap(t, v, held, 1))
    decreases v, 0
  {
    hide InterpretEntries, MetaTable, EntryTable, TypeDescriptorTable;
    if v.Map? {
      FloorEntriesRefusals(t, v.entries, |v.entries|, held);
    }
  }

  lemma {:induction false} FloorEntriesRefusals(t: FieldTable, entries: seq<MapEntry>, k: nat, held: Held)
    requires HoldsFloor(held) && IsFloor(t) && k <= |entries|
    ensures StructuralOnly(InterpretEntries(t, entries, k, held, 1))
    decreases entries, k
  {
    hide InterpretValue, MetaTable, EntryTable, TypeDescriptorTable, HoldsFloor;
    if k > 0 {
      FloorEntriesRefusals(t, entries, k - 1, held);
      var e := entries[k - 1];
      assert e.value < e;
      if e.key.Int? && EntryByKey(t.entries, e.key.n).Some? {
        FloorTypesAreClosed(t);
        FloorValueRefusals(EntryByKey(t.entries, e.key.n).value.typ, e.value, held);
      }
    }
  }

  lemma {:induction false} FloorValueRefusals(td: TypeDescriptor, v: Value, held: Held)
    requires HoldsFloor(held) && ClosedType(td)
    ensures StructuralOnly(InterpretValue(td, v, held, 1))
    decreases v, 1
  {
    hide InterpretMap, InterpretItems, MetaTable, EntryTable, TypeDescriptorTable, HoldsFloor;
    if td.kind == KIND_ARRAY && v.Array? {
      FloorItemsRefusals(td.elem.value, v.items, |v.items|, held);
    } else if td.kind == KIND_REF {
      FloorIsHeld(held);
      FloorMapRefusals(LookupTable(held, td.target, 1).value, v, held);
    }
  }

  lemma {:induction false} FloorItemsRefusals(td: TypeDescriptor, items: seq<Value>, k: nat, held: Held)
    requires HoldsFloor(held) && ClosedType(td) && k <= |items|
    ensures StructuralOnly(InterpretItems(td, items, k, held, 1))
    decreases items, k
  {
    hide InterpretValue, HoldsFloor, ClosedType;
    if k > 0 {
      FloorItemsRefusals(td, items, k - 1, held);
      FloorValueRefusals(td, items[k - 1], held);
    }
  }

  // --------------------------------------------- reading does not depend on the rest

  /** Every registry holding the floor reads a field table as the default registry does. */
  lemma FloorDecidesAlone(v: Value, held: Held)
    requires HoldsFloor(held)
    ensures ParseFieldTable(v, held) == ParseFieldTable(v, FloorTables())
  {
    hide InterpretMap, MetaTable, EntryTable, TypeDescriptorTable;
    assert HoldsFloor(FloorTables());
    FloorMapRefusals(MetaTable(), v, FloorTables());
    MetaVersion();
    MapGrows(MetaTable(), v, FloorTables(), held, 1);
  }

  lemma MetaVersion()
    ensures MetaTable().version == 1
  {
  }

  lemma ReachedHoldsFloor(ts: seq<FieldTable>)
    requires AddAll(FloorTables(), ts).Some?
    ensures HoldsFloor(AddAll(FloorTables(), ts).value)
  {
    AddingOnlyGrows(FloorTables(), ts);
  }

  /** In particular every registry reached from the default one by successful additions. */
  lemma AdditionsDoNotChangeReading(v: Value, ts: seq<FieldTable>)
    requires AddAll(FloorTables(), ts).Some?
    ensures ParseFieldTable(v, AddAll(FloorTables(), ts).value) == ParseFieldTable(v, FloorTables())
  {
    ReachedHoldsFloor(ts);
    FloorDecidesAlone(v, AddAll(FloorTables(), ts).value);
  }

  // --------------------------------------------------- the shapes of floor instances

  /** A field holds what the accessor of its type returns. */
  lemma TypedField(table: FieldTable, inst: Instance, held: Held, k: int)
    requires TypedInstance(table, inst, held, 1) && inst.Has(k)
    ensures EntryByKey(table.entries, k).Some?
    ensures Typed(EntryByKey(table.entries, k).value.typ, inst.fields[k], held, 1)
  {
  }

  lemma TypedScalar(f: Field, held: Held)
    ensures Typed(Scalar(KIND_INT), f, held, 1) ==> f.FInt?
    ensures Typed(Scalar(KIND_TEXT), f, held, 1) ==> f.FText?
  {
  }

  lemma TypedRef(target: int, f: Field, held: Held)
    requires Typed(Ref(target), f, held, 1)
    ensures f.FRef? && RegKey(target, 1) in held && TypedInstance(held[RegKey(target, 1)], f.inst, held, 1)
  {
  }

  lemma TypedArray(elem: TypeDescriptor, f: Field, held: Held)
    requires Typed(ArrayOf(elem), f, held, 1)
    ensures f.FArray? && forall i :: 0 <= i < |f.items| ==> Typed(elem, f.items[i], held, 1)
  {
  }

  lemma DescriptorShape(inst: Instance, held: Held)
    requires HoldsFloor(held) && TypedInstance(TypeDescriptorTable(), inst, held, 1)
    ensures forall k :: inst.Has(k) ==> 0 <= k < 4
    ensures forall k :: k in {0, 2, 3} && inst.Has(k) ==> inst.IntAt(k).Some?
    ensures inst.Has(1) ==> inst.RefAt(1).Some? && TypedInstance(TypeDescriptorTable(), inst.RefAt(1).value, held, 1)
  {
    FloorLookups();
    FloorTypes();
    FloorIsHeld(held);
    hide Typed, TypedInstance, TypeDescriptorTable, EntryTable, MetaTable, EntryByKey, HoldsFloor;
    forall k | inst.Has(k) ensures 0 <= k < 4 && (k in {0, 2, 3} ==> inst.IntAt(k).Some?) {
      TypedField(TypeDescriptorTable(), inst, held, k);
      TypedScalar(inst.fields[k], held);
    }
    if inst.Has(1) {
      TypedField(TypeDescriptorTable(), inst, held, 1);
      TypedRef(ARTIFACT_TYPE_DESCRIPTOR, inst.fields[1], held);
    }
  }

  lemma EntryShape(inst: Instance, held: Held)
    requires HoldsFloor(held) && TypedInstance(EntryTable(), inst, held, 1)
    ensures forall k :: inst.Has(k) ==> 0 <= k < 4
    ensures forall k :: k in {0, 3} && inst.Has(k) ==> inst.IntAt(k).Some?
    ensures inst.Has(1) ==> inst.TextAt(1).Some?
    ensures inst.Has(2) ==> inst.RefAt(2).Some? && TypedInstance(TypeDescriptorTable(), inst.RefAt(2).value, held, 1)
  {
    FloorLookups();
    FloorTypes();
    FloorIsHeld(held);
    hide Typed, TypedInstance, TypeDescriptorTable, EntryTable, MetaTable, EntryByKey, HoldsFloor;
    forall k | inst.Has(k)
      ensures 0 <= k < 4 && (k in {0, 3} ==> inst.IntAt(k).Some?) && (k == 1 ==> inst.TextAt(k).Some?)
    {
      TypedField(EntryTable(), inst, held, k);
      TypedScalar(inst.fields[k], held);
    }
    if inst.Has(2) {
      TypedField(EntryTable(), inst, held, 2);
      TypedRef(ARTIFACT_TYPE_DESCRIPTOR, inst.fields[2], held);
    }
  }

  lemma MetaShape(inst: Instance, held: Held)
    requires HoldsFloor(held) && TypedInstance(MetaTable(), inst, held, 1)
    ensures forall k :: inst.Has(k) ==> 0 <= k < 3
    ensures forall k :: k in {0, 1} && inst.Has(k) ==> inst.IntAt(k).Some?
    ensures inst.Has(2) ==> inst.ArrayAt(2).Some?
    ensures inst.Has(2) ==> forall i :: 0 <= i < |inst.ArrayAt(2).value| ==>
              var f := inst.ArrayAt(2).value[i];
              f.FRef? && TypedInstance(EntryTable(), f.inst, held, 1)
  {
    FloorLookups();
    FloorTypes();
    FloorIsHeld(held);
    hide Typed, TypedInstance, TypeDescriptorTable, EntryTable, MetaTable, EntryByKey, HoldsFloor;
    forall k | inst.Has(k) ensures 0 <= k < 3 && (k in {0, 1} ==> inst.IntAt(k).Some?) {
      TypedField(MetaTable(), inst, held, k);
      TypedScalar(inst.fields[k], held);
    }
    if inst.Has(2) {
      TypedField(MetaTable(), inst, held, 2);
      TypedArray(Ref(ARTIFACT_ENTRY), inst.fields[2], held);
      forall i | 0 <= i < |inst.ArrayAt(2).value|
        ensures var f := inst.ArrayAt(2).value[i]; f.FRef? && TypedInstance(EntryTable(), f.inst, held, 1)
      {
        TypedRef(ARTIFACT_ENTRY, inst.fields[2].items[i], held);
      }
    }
  }

  // -------------------------------------------------------- what reading refuses with

  lemma {:induction false} DescriptorRefusals(inst: Instance, held: Held)
    requires HoldsFloor(held) && TypedInstance(TypeDescriptorTable(), inst, held, 1)
    ensures ProjectDescriptor(inst).Err? ==> ProjectDescriptor(inst).error in {MalformedDescriptor, UnresolvedRef}
    decreases inst
  {
    hide TypedInstance, HoldsFloor, TypeDescriptorTable;
    DescriptorShape(inst, held);
    if inst.Has(1) {
      assert inst.fields[1].inst < inst.fields[1] < inst;
      DescriptorRefusals(inst.fields[1].inst, held);
    }
  }

  lemma EntryRefusals(inst: Instance, held: Held)
    requires HoldsFloor(held) && TypedInstance(EntryTable(), inst, held, 1)
    ensures ProjectEntry(inst).Err? ==> ProjectEntry(inst).error in {MalformedEntry, MalformedDescriptor, UnresolvedRef}
  {
    hide TypedInstance, HoldsFloor, EntryTable, TypeDescriptorTable, ProjectDescriptor;
    EntryShape(inst, held);
    if inst.Has(2) {
      DescriptorRefusals(inst.fields[2].inst, held);
    }
  }

  lemma {:induction false} EntriesRefusals(raw: seq<Field>, k: nat, held: Held)
    requires HoldsFloor(held) && k <= |raw|
    requires forall i :: 0 <= i < |raw| ==> raw[i].FRef? && TypedInstance(EntryTable(), raw[i].inst, held, 1)
    ensures ProjectEntries(raw, k).Err?
        ==> ProjectEntries(raw, k).error in {MalformedEntry, MalformedDescriptor, UnresolvedRef}
  {
    hide TypedInstance, HoldsFloor, EntryTable, ProjectEntry;
    if k > 0 {
      EntriesRefusals(raw, k - 1, held);
      EntryRefusals(raw[k - 1].inst, held);
    }
  }

  lemma TableRefusals(inst: Instance, held: Held)
    requires HoldsFloor(held) && TypedInstance(MetaTable(), inst, held, 1)
    ensures ProjectTable(inst).Err?
        ==> ProjectTable(inst).error in {MalformedFieldTable, MalformedEntry, MalformedDescriptor, UnresolvedRef}
  {
    hide TypedInstance, HoldsFloor, MetaTable, EntryTable, ProjectEntries;
    MetaShape(inst, held);
    if inst.Has(2) {
      var raw := inst.ArrayAt(2).value;
      EntriesRefusals(raw, |raw|, held);
    }
  }

  /**
   Reading a field table refuses with a structural reason exactly when interpretation does,
   and otherwise only with the three malformed reasons or an unresolvable code: never with a
   missing field, a bad magnitude, or a type mismatch of its own.
   */
  lemma ParseRefusals(v: Value, held: Held)
    requires HoldsFloor(held)
    ensures var r := ParseFieldTable(v, held);
            && (Interpret(MetaTable(), v, held).Err? ==>
                  r.Err? && r.error == Interpret(MetaTable(), v, held).error && StructuralReason(r.error))
            && (Interpret(MetaTable(), v, held).Ok? && r.Err? ==>
                  r.error in {MalformedFieldTable, MalformedEntry, MalformedDescriptor, UnresolvedRef})
  {
    hide InterpretMap, TypedInstance, HoldsFloor, MetaTable, ProjectTable;
    MetaVersion();
    MetaIsFloor();
    FloorMapRefusals(MetaTable(), v, held);
    if Interpret(MetaTable(), v, held).Ok? {
      MapIsTyped(MetaTable(), v, held, 1);
      TableRefusals(Interpret(MetaTable(), v, held).value, held);
    }
  }

  lemma MetaIsFloor()
    ensures IsFloor(MetaTable())
  {
  }

  // ------------------------------------------- which registries are safe to interpret with

  /** An array type has its element type, and so has that one while it is an array. */
  predicate Complete(td: TypeDescriptor) {
    td.kind == KIND_ARRAY ==> td.elem.Some? && Complete(td.elem.value)
  }

  /** Every entry that interpretation can reach, the first under its key, has a complete type. */
  ghost predicate CompleteTable(t: FieldTable) {
    forall j :: 0 <= j < |t.entries| && FirstWithKey(t.entries, j, t.entries[j].key) && IsInt64(t.entries[j].key)
            ==> Complete(t.entries[j].typ)
  }

  ghost predicate AllComplete(held: Held) {
    forall k :: k in held ==> CompleteTable(held[k])
  }

  lemma {:induction false} CompleteMap(t: FieldTable, v: Value, held: Held, version: int)
    requires AllComplete(held) && CompleteTable(t)
    ensures InterpretMap(t, v, held, version) != Err(MalformedDescriptor)
    decreases v, 0
  {
    hide InterpretEntries, CompleteTable;
    if v.Map? {
      CompleteEntries(t, v.entries, |v.entries|, held, version);
    }
  }

  lemma {:induction false} CompleteEntries(t: FieldTable, entries: seq<MapEntry>, k: nat, held: Held, version: int)
    requires AllComplete(held) && CompleteTable(t) && k <= |entries|
    ensures InterpretEntries(t, entries, k, held, version) != Err(MalformedDescriptor)
    decreases entries, k
  {
    hide InterpretValue, AllComplete;
    if k > 0 {
      CompleteEntries(t, entries, k - 1, held, version);
      var e := entries[k - 1];
      assert e.value < e;
      if e.key.Int? && IsInt64(e.key.n) && EntryByKey(t.entries, e.key.n).Some? {
        var j := FoundIsFirst(t.entries, e.key.n);
        CompleteValue(t.entries[j].typ, e.value, held, version);
      }
    }
  }

  lemma {:induction false} CompleteValue(td: TypeDescriptor, v: Value, held: Held, version: int)
    requires AllComplete(held) && Complete(td)
    ensures InterpretValue(td, v, held, version) != Err(MalformedDescriptor)
    decreases v, 1
  {
    hide InterpretMap, InterpretItems, CompleteTable;
    if td.kind == KIND_ARRAY && v.Array? {
      CompleteItems(td.elem.value, v.items, |v.items|, held, version);
    } else if td.kind == KIND_REF && RegKey(td.target, version) in held {
      CompleteMap(held[RegKey(td.target, version)], v, held, version);
    }
  }

  lemma {:induction false} CompleteItems(td: TypeDescriptor, items: seq<Value>, k: nat, held: Held, version: int)
    requires AllComplete(held) && Complete(td) && k <= |items|
    ensures InterpretItems(td, items, k, held, version) != Err(MalformedDescriptor)
    decreases items, k
  {
    hide InterpretValue, AllComplete;
    if k > 0 {
      CompleteItems(td, items, k - 1, held, version);
      CompleteValue(td, items[k - 1], held, version);
    }
  }

  /** Arrays nested down to where the descriptor lacks an element type. */
  function ArraysDownTo(td: TypeDescriptor): Value {
    if td.elem.None? then Array([]) else Array([ArraysDownTo(td.elem.value)])
  }

  lemma {:induction false} IncompleteIsRefused(td: TypeDescriptor, held: Held, version: int)
    requires !Complete(td)
    ensures InterpretValue(td, ArraysDownTo(td), held, version) == Err(MalformedDescriptor)
    decreases td
  {
    if td.elem.Some? {
      var inner := [ArraysDownTo(td.elem.value)];
      IncompleteIsRefused(td.elem.value, held, version);
      assert InterpretItems(td.elem.value, inner, 0, held, version) == Ok([]);
      assert InterpretItems(td.elem.value, inner, 1, held, version) == Err(MalformedDescriptor);
    }
  }

  /** A table with an incomplete type in reach refuses some artifact as malformed, under any registry. */
  lemma IncompleteTableIsMalformed(t: FieldTable, j: int, held: Held)
    requires 0 <= j < |t.entries| && FirstWithKey(t.entries, j, t.entries[j].key) && IsInt64(t.entries[j].key)
    requires !Complete(t.entries[j].typ)
    ensures Interpret(t, Map([MapEntry(Int(t.entries[j].key), ArraysDownTo(t.entries[j].typ))]), held)
         == Err(MalformedDescriptor)
  {
    hide InterpretValue, ArraysDownTo, Complete;
    var e := MapEntry(Int(t.entries[j].key), ArraysDownTo(t.entries[j].typ));
    FirstIsFound(t.entries, j, t.entries[j].key);
    IncompleteIsRefused(t.entries[j].typ, held, t.version);
    assert InterpretEntry(t, e, held, t.version) == Err(MalformedDescriptor);
    assert InterpretEntries(t, [e], 0, held, t.version) == Ok(map[]);
    assert InterpretEntries(t, [e], 1, held, t.version) == Err(MalformedDescriptor);
  }

  /** Interpreting with a held table never meets an array without an element type. */
  ghost predicate NeverMalformed(held: Held) {
    forall k, v :: k in held ==> Interpret(held[k], v, held) != Err(MalformedDescriptor)
  }

  /** The registries that never are, told from their tables: every type in reach is complete. */
  lemma NeverMalformedExactlyWhenComplete(held: Held)
    ensures NeverMalformed(held) <==> AllComplete(held)
  {
    hide Interpret, CompleteTable;
    if AllComplete(held) {
      forall k, v | k in held ensures Interpret(held[k], v, held) != Err(MalformedDescriptor) {
        InterpretComplete(held[k], v, held);
      }
    }
    if NeverMalformed(held) {
      forall k | k in held ensures CompleteTable(held[k]) {
        CompleteFromVerdicts(k, held);
      }
    }
  }

  lemma InterpretComplete(t: FieldTable, v: Value, held: Held)
    requires AllComplete(held) && CompleteTable(t)
    ensures Interpret(t, v, held) != Err(MalformedDescriptor)
  {
    CompleteMap(t, v, held, t.version);
  }

  lemma CompleteFromVerdicts(k: RegKey, held: Held)
    requires NeverMalformed(held) && k in held
    ensures CompleteTable(held[k])
  {
    hide Interpret, Complete;
    var t := held[k];
    forall j | 0 <= j < |t.entries| && FirstWithKey(t.entries, j, t.entries[j].key) && IsInt64(t.entries[j].key)
      ensures Complete(t.entries[j].typ)
    {
      if !Complete(t.entries[j].typ) {
        IncompleteTableIsMalformed(t, j, held);
      }
    }
  }

  // ------------------------------------------------------------ parsed tables are safe

  lemma {:induction false} ParsedDescriptorIsComplete(inst: Instance)
    requires ProjectDescriptor(inst).Ok?
    ensures Complete(ProjectDescriptor(inst).value)
    decreases inst
  {
    if inst.Has(1) {
      assert inst.fields[1].inst < inst.fields[1] < inst;
      ParsedDescriptorIsComplete(inst.fields[1].inst);
    }
  }

  lemma {:induction false} ParsedEntriesAreComplete(raw: seq<Field>, k: nat)
    requires k <= |raw| && ProjectEntries(raw, k).Ok?
    ensures forall e :: e in ProjectEntries(raw, k).value ==> Complete(e.typ)
  {
    hide ProjectDescriptor;
    if k > 0 {
      ParsedEntriesAreComplete(raw, k - 1);
      var td := raw[k - 1].inst.RefAt(2);
      if td.Some? {
        ParsedDescriptorIsComplete(td.value);
      }
    }
  }

  lemma ParsedTableIsComplete(v: Value, held: Held)
    requires ParseFieldTable(v, held).Ok?
    ensures CompleteTable(ParseFieldTable(v, held).value)
  {
    hide ProjectEntries, MetaTable;
    var raw := OrEmpty(Interpret(MetaTable(), v, held).value.ArrayAt(2));
    ParsedEntriesAreComplete(raw, |raw|);
  }

  /** Some artifact parses to the table, under some registry. */
  ghost predicate Parsed(t: FieldTable) {
    exists v, held :: ParseFieldTable(v, held) == Ok(t)
  }

  lemma FloorIsComplete()
    ensures AllComplete(FloorTables())
  {
  }

  /**
   Every registry reached from the default one by adding parsed tables, whatever each was
   parsed under, is safe: interpreting with its tables is never refused as malformed.
   */
  lemma LoadedTablesNeverMalformed(ts: seq<FieldTable>)
    requires AddAll(FloorTables(), ts).Some? && forall t :: t in ts ==> Parsed(t)
    ensures NeverMalformed(AddAll(FloorTables(), ts).value)
  {
    hide ParseFieldTable, FloorTables, CompleteTable, NeverMalformed;
    var held := AddAll(FloorTables(), ts).value;
    AddingOnlyGrows(FloorTables(), ts);
    FloorIsComplete();
    forall k | k in held ensures CompleteTable(held[k]) {
      if k in FloorTables() {
        assert held[k] == FloorTables()[k];
      } else {
        var v, h :| ParseFieldTable(v, h) == Ok(held[k]);
        ParsedTableIsComplete(v, h);
      }
    }
    NeverMalformedExactlyWhenComplete(held);
  }

  /** A table that was not parsed need not be. */
  lemma UnloadedTableCanBeMalformed()
    ensures var t := FieldTable(1024, 1, [Entry(0, [], Scalar(KIND_ARRAY), OPTIONAL)]);
            Interpret(t, Map([MapEntry(Int(0), Array([]))]), FloorTables()) == Err(MalformedDescriptor)
  {
    IncompleteTableIsMalformed(FieldTable(1024, 1, [Entry(0, [], Scalar(KIND_ARRAY), OPTIONAL)]), 0, FloorTables());
  }
}
