/**
 The printer of field tables, in every spelling their artifacts can have, and what reading
 makes of each printed table.
 */
module TablePrinting {
  import opened ByteOrder
  import opened EncodingFacts
  import opened FieldTables
  import opened Floor
  import opened FloorClosure
  import opened Heads
  import opened Interpretation
  import opened NormalForm
  import opened Results
  import opened Tables
  import opened Values

  predicate KnownKind(kind: int) {
    KIND_INT <= kind <= KIND_REF
  }

  /** Every known kind in the descriptor, at any level, has exactly the fields it owns. */
  predicate OwnsItsFields(td: TypeDescriptor) {
    && (td.elem.Some? ==> OwnsItsFields(td.elem.value))
    && (KnownKind(td.kind) ==>
          && (td.elem.Some? <==> td.kind == KIND_ARRAY)
          && (td.kind != KIND_REF ==> td.target == 0)
          && (td.kind !in {KIND_DECIMAL, KIND_RATIONAL} ==> td.unit == 0))
  }

  /** Every code in the descriptor, at any level, fits a native int. */
  predicate TypeFits(td: TypeDescriptor) {
    IsInt64(td.kind) && IsInt64(td.target) && IsInt64(td.unit) && (td.elem.Some? ==> TypeFits(td.elem.value))
  }

  predicate EntryFits(e: Entry) {
    IsInt64(e.key) && IsInt64(e.presence) && TypeFits(e.typ)
  }

  predicate TableFits(t: FieldTable) {
    IsInt64(t.describes) && IsInt64(t.version) && forall i :: 0 <= i < |t.entries| ==> EntryFits(t.entries[i])
  }

  predicate TableOwnsItsFields(t: FieldTable) {
    forall i :: 0 <= i < |t.entries| ==> OwnsItsFields(t.entries[i].typ)
  }

  predicate WellFormedTable(t: FieldTable) {
    TableFits(t) && TableOwnsItsFields(t) && DenseKeys(t.entries)
  }

  // ---------------------------------------------------------------- the printer

  /** Whether a zero ref code and a zero unit code are written out in a descriptor of an unknown kind. */
  datatype Zeros = Zeros(target: bool, unit: bool)

  /** That choice for a descriptor and the ones nested in it, outermost first; past the end, neither. */
  type Levels = seq<Zeros>

  /** And for each entry of a table. */
  type Spelling = seq<Levels>

  function Top(z: Levels): Zeros {
    if z == [] then Zeros(false, false) else z[0]
  }

  function Below(z: Levels): Levels {
    if z == [] then [] else z[1..]
  }

  function Of(zs: Spelling, i: nat): Levels {
    if i < |zs| then zs[i] else []
  }

  /** Which codes a descriptor writes: a known kind its own, an unknown kind what is not zero or chosen. */
  predicate WritesTarget(td: TypeDescriptor, z: Levels) {
    td.kind == KIND_REF || (!KnownKind(td.kind) && (td.target != 0 || Top(z).target))
  }

  predicate WritesUnit(td: TypeDescriptor, z: Levels) {
    td.kind in {KIND_DECIMAL, KIND_RATIONAL} || (!KnownKind(td.kind) && (td.unit != 0 || Top(z).unit))
  }

  function Kv(k: int, v: Value): MapEntry {
    MapEntry(Int(k), v)
  }

  function TypeArtifact(td: TypeDescriptor, z: Levels): Value {
    Map([Kv(0, Int(td.kind))]
        + (if td.elem.Some? then [Kv(1, TypeArtifact(td.elem.value, Below(z)))] else [])
        + (if WritesTarget(td, z) then [Kv(2, Int(td.target))] else [])
        + (if WritesUnit(td, z) then [Kv(3, Int(td.unit))] else []))
  }

  function EntryArtifact(e: Entry, z: Levels): Value {
    Map([Kv(0, Int(e.key)), Kv(1, Text(e.name)), Kv(2, TypeArtifact(e.typ, z)), Kv(3, Int(e.presence))])
  }

  function EntryArtifacts(entries: seq<Entry>, zs: Spelling): (r: seq<Value>)
    ensures |r| == |entries|
  {
    seq(|entries|, i requires 0 <= i < |entries| => EntryArtifact(entries[i], Of(zs, i)))
  }

  function TableArtifact(t: FieldTable, zs: Spelling): Value {
    Map([Kv(0, Int(t.describes)), Kv(1, Int(t.version)), Kv(2, Array(EntryArtifacts(t.entries, zs)))])
  }

  // --------------------------------------------------- the instances it stands for

  function TypeInstance(td: TypeDescriptor, z: Levels): Instance {
    Instance(TypeDescriptorTable(), 1,
      map[0 := FInt(td.kind)]
      + (if td.elem.Some? then map[1 := FRef(TypeInstance(td.elem.value, Below(z)))] else map[])
      + (if WritesTarget(td, z) then map[2 := FInt(td.target)] else map[])
      + (if WritesUnit(td, z) then map[3 := FInt(td.unit)] else map[]))
  }

  function EntryInstance(e: Entry, z: Levels): Instance {
    Instance(EntryTable(), 1,
      map[0 := FInt(e.key), 1 := FText(e.name), 2 := FRef(TypeInstance(e.typ, z)), 3 := FInt(e.presence)])
  }

  function EntryFields(entries: seq<Entry>, zs: Spelling): (r: seq<Field>)
    ensures |r| == |entries|
  {
    seq(|entries|, i requires 0 <= i < |entries| => FRef(EntryInstance(entries[i], Of(zs, i))))
  }

  function TableInstance(t: FieldTable, zs: Spelling): Instance {
    Instance(MetaTable(), 1,
      map[0 := FInt(t.describes), 1 := FInt(t.version), 2 := FArray(EntryFields(t.entries, zs))])
  }

  // ------------------------------------------------- artifacts interpret to instances

  lemma {:induction false} EntriesPrefix(
      table: FieldTable, a: seq<MapEntry>, b: seq<MapEntry>, k: nat, held: Held)
    requires k <= |a| && k <= |b| && forall i :: 0 <= i < k ==> a[i] == b[i]
    ensures InterpretEntries(table, a, k, held, 1) == InterpretEntries(table, b, k, held, 1)
  {
    if k > 0 {
      EntriesPrefix(table, a, b, k - 1, held);
    }
  }

  /** The entries read so far stand for these fields. */
  ghost predicate Stands(table: FieldTable, entries: seq<MapEntry>, fields: map<int, Field>, held: Held) {
    InterpretEntries(table, entries, |entries|, held, 1) == Ok(fields)
  }

  lemma StandsNext(
      table: FieldTable, entries: seq<MapEntry>, fields: map<int, Field>, k: int, v: Value, f: Field, held: Held)
    requires Stands(table, entries, fields, held)
    requires IsInt64(k) && EntryByKey(table.entries, k).Some?
    requires InterpretValue(EntryByKey(table.entries, k).value.typ, v, held, 1) == Ok(f)
    ensures Stands(table, entries + [Kv(k, v)], fields + map[k := f], held)
  {
    hide InterpretValue, EntryByKey;
    var longer := entries + [Kv(k, v)];
    EntriesPrefix(table, entries, longer, |entries|, held);
    assert InterpretEntry(table, longer[|entries|], held, 1) == Ok(f);
    assert fields[k := f] == fields + map[k := f];
  }

  lemma StandsAll(table: FieldTable, entries: seq<MapEntry>, fields: map<int, Field>, held: Held)
    requires Stands(table, entries, fields, held)
    ensures InterpretMap(table, Map(entries), held, 1) == Ok(Instance(table, 1, fields))
  {
  }

  lemma RefView(target: int, v: Value, inst: Instance, held: Held)
    requires RegKey(target, 1) in held && InterpretMap(held[RegKey(target, 1)], v, held, 1) == Ok(inst)
    ensures InterpretValue(Ref(target), v, held, 1) == Ok(FRef(inst))
  {
  }

  lemma ScalarViews(held: Held)
    ensures forall n: int :: InterpretValue(Scalar(KIND_INT), Int(n), held, 1) == Ok(FInt(n))
    ensures forall s: seq<Byte> :: InterpretValue(Scalar(KIND_TEXT), Text(s), held, 1) == Ok(FText(s))
  {
  }

  lemma {:induction false} TypeInterprets(td: TypeDescriptor, z: Levels, held: Held)
    requires HoldsFloor(held)
    ensures InterpretMap(TypeDescriptorTable(), TypeArtifact(td, z), held, 1) == Ok(TypeInstance(td, z))
    decreases td
  {
    var e1, f1 := [Kv(0, Int(td.kind))], map[0 := FInt(td.kind)];
    var b := if td.elem.Some? then [Kv(1, TypeArtifact(td.elem.value, Below(z)))] else [];
    var fb: map<int, Field> := if td.elem.Some? then map[1 := FRef(TypeInstance(td.elem.value, Below(z)))] else map[];
    var c := if WritesTarget(td, z) then [Kv(2, Int(td.target))] else [];
    var fc: map<int, Field> := if WritesTarget(td, z) then map[2 := FInt(td.target)] else map[];
    var d := if WritesUnit(td, z) then [Kv(3, Int(td.unit))] else [];
    var fd: map<int, Field> := if WritesUnit(td, z) then map[3 := FInt(td.unit)] else map[];
    assert TypeArtifact(td, z) == Map(e1 + b + c + d);
    assert TypeInstance(td, z) == Instance(TypeDescriptorTable(), 1, f1 + fb + fc + fd);
    KindStands(td, held);
    if td.elem.Some? {
      TypeInterprets(td.elem.value, Below(z), held);
    }
    hide *;
    ElementStands(td, z, e1, f1, held);
    CodeStands(2, WritesTarget(td, z), td.target, e1 + b, f1 + fb, held);
    CodeStands(3, WritesUnit(td, z), td.unit, e1 + b + c, f1 + fb + fc, held);
    StandsAll(TypeDescriptorTable(), e1 + b + c + d, f1 + fb + fc + fd, held);
  }

  lemma KindStands(td: TypeDescriptor, held: Held)
    ensures Stands(TypeDescriptorTable(), [Kv(0, Int(td.kind))], map[0 := FInt(td.kind)], held)
  {
    hide InterpretValue, EntryByKey, TypeDescriptorTable;
    FloorTypes();
    ScalarViews(held);
    assert InterpretEntries(TypeDescriptorTable(), [], 0, held, 1) == Ok(map[]);
    StandsNext(TypeDescriptorTable(), [], map[], 0, Int(td.kind), FInt(td.kind), held);
    assert [] + [Kv(0, Int(td.kind))] == [Kv(0, Int(td.kind))];
    assert map[] + map[0 := FInt(td.kind)] == map[0 := FInt(td.kind)];
  }

  lemma ElementStands(td: TypeDescriptor, z: Levels, entries: seq<MapEntry>, fields: map<int, Field>, held: Held)
    requires HoldsFloor(held) && Stands(TypeDescriptorTable(), entries, fields, held)
    requires td.elem.Some?
         ==> InterpretMap(TypeDescriptorTable(), TypeArtifact(td.elem.value, Below(z)), held, 1)
             == Ok(TypeInstance(td.elem.value, Below(z)))
    ensures Stands(TypeDescriptorTable(),
                   entries + if td.elem.Some? then [Kv(1, TypeArtifact(td.elem.value, Below(z)))] else [],
                   fields + if td.elem.Some? then map[1 := FRef(TypeInstance(td.elem.value, Below(z)))] else map[],
                   held)
  {
    hide InterpretMap, EntryByKey, TypeDescriptorTable, Stands, TypeArtifact, TypeInstance;
    FloorIsHeld(held);
    FloorTypes();
    if td.elem.Some? {
      var inner := td.elem.value;
      RefView(ARTIFACT_TYPE_DESCRIPTOR, TypeArtifact(inner, Below(z)), TypeInstance(inner, Below(z)), held);
      StandsNext(TypeDescriptorTable(), entries, fields, 1,
                 TypeArtifact(inner, Below(z)), FRef(TypeInstance(inner, Below(z))), held);
    } else {
      assert entries + [] == entries && fields + map[] == fields;
    }
  }

  lemma CodeStands(k: int, written: bool, code: int, entries: seq<MapEntry>, fields: map<int, Field>, held: Held)
    requires k in {2, 3} && Stands(TypeDescriptorTable(), entries, fields, held)
    ensures Stands(TypeDescriptorTable(), entries + if written then [Kv(k, Int(code))] else [],
                   fields + if written then map[k := FInt(code)] else map[], held)
  {
    hide InterpretValue, EntryByKey, TypeDescriptorTable, Stands;
    FloorTypes();
    ScalarViews(held);
    if written {
      StandsNext(TypeDescriptorTable(), entries, fields, k, Int(code), FInt(code), held);
    } else {
      assert entries + [] == entries && fields + map[] == fields;
    }
  }

  /** An entry map around any descriptor that interprets. */
  lemma EntryViews(key: int, name: seq<Byte>, desc: Value, inst: Instance, presence: int, held: Held)
    requires HoldsFloor(held) && InterpretMap(TypeDescriptorTable(), desc, held, 1) == Ok(inst)
    ensures InterpretMap(EntryTable(),
                         Map([Kv(0, Int(key)), Kv(1, Text(name)), Kv(2, desc), Kv(3, Int(presence))]), held, 1)
         == Ok(Instance(EntryTable(), 1, map[0 := FInt(key), 1 := FText(name), 2 := FRef(inst), 3 := FInt(presence)]))
  {
    var a, b, c, d := Kv(0, Int(key)), Kv(1, Text(name)), Kv(2, desc), Kv(3, Int(presence));
    assert [a, b, c, d] == [] + [a] + [b] + [c] + [d];
    var fa, fb, fc, fd := FInt(key), FText(name), FRef(inst), FInt(presence);
    assert map[0 := fa, 1 := fb, 2 := fc, 3 := fd] == map[] + map[0 := fa] + map[1 := fb] + map[2 := fc] + map[3 := fd];
    NothingStands(EntryTable(), held);
    FloorIsHeld(held);
    FloorTypes();
    ScalarViews(held);
    RefView(ARTIFACT_TYPE_DESCRIPTOR, desc, inst, held);
    hide *;
    StandsNext(EntryTable(), [], map[], 0, a.value, fa, held);
    StandsNext(EntryTable(), [] + [a], map[] + map[0 := fa], 1, b.value, fb, held);
    StandsNext(EntryTable(), [] + [a] + [b], map[] + map[0 := fa] + map[1 := fb], 2, c.value, fc, held);
    StandsNext(EntryTable(), [] + [a] + [b] + [c], map[] + map[0 := fa] + map[1 := fb] + map[2 := fc],
               3, d.value, fd, held);
    StandsAll(EntryTable(), [] + [a] + [b] + [c] + [d],
              map[] + map[0 := fa] + map[1 := fb] + map[2 := fc] + map[3 := fd], held);
  }

  lemma EntryInterprets(e: Entry, z: Levels, held: Held)
    requires HoldsFloor(held)
    ensures InterpretMap(EntryTable(), EntryArtifact(e, z), held, 1) == Ok(EntryInstance(e, z))
  {
    hide InterpretMap, TypeArtifact, TypeInstance, HoldsFloor, EntryTable, TypeDescriptorTable;
    TypeInterprets(e.typ, z, held);
    EntryViews(e.key, e.name, TypeArtifact(e.typ, z), TypeInstance(e.typ, z), e.presence, held);
  }

  lemma NothingStands(table: FieldTable, held: Held)
    ensures Stands(table, [], map[], held)
  {
  }

  lemma {:induction false} EntriesInterpret(entries: seq<Entry>, zs: Spelling, k: nat, held: Held)
    requires HoldsFloor(held) && k <= |entries|
    ensures InterpretItems(Ref(ARTIFACT_ENTRY), EntryArtifacts(entries, zs), k, held, 1)
         == Ok(EntryFields(entries, zs)[..k])
  {
    hide InterpretMap, InterpretValue, EntryArtifact, EntryInstance, HoldsFloor, EntryTable;
    if k > 0 {
      EntriesInterpret(entries, zs, k - 1, held);
      FloorIsHeld(held);
      EntryInterprets(entries[k - 1], Of(zs, k - 1), held);
      var e, z := entries[k - 1], Of(zs, k - 1);
      RefView(ARTIFACT_ENTRY, EntryArtifact(e, z), EntryInstance(e, z), held);
      var fields := EntryFields(entries, zs);
      assert fields[..k] == fields[..k - 1] + [fields[k - 1]];
    }
  }

  lemma ArrayView(entries: seq<Entry>, zs: Spelling, held: Held)
    requires HoldsFloor(held)
    ensures InterpretValue(ArrayOf(Ref(ARTIFACT_ENTRY)), Array(EntryArtifacts(entries, zs)), held, 1)
         == Ok(FArray(EntryFields(entries, zs)))
  {
    hide InterpretMap, EntryArtifacts, EntryFields, HoldsFloor;
    EntriesInterpret(entries, zs, |entries|, held);
    assert EntryFields(entries, zs)[..|entries|] == EntryFields(entries, zs);
  }

  /** A table map around any entries that interpret. */
  lemma TableViews(describes: int, version: int, entries: Value, fields: seq<Field>, held: Held)
    requires HoldsFloor(held)
    requires InterpretValue(ArrayOf(Ref(ARTIFACT_ENTRY)), entries, held, 1) == Ok(FArray(fields))
    ensures Interpret(MetaTable(), Map([Kv(0, Int(describes)), Kv(1, Int(version)), Kv(2, entries)]), held)
         == Ok(Instance(MetaTable(), 1, map[0 := FInt(describes), 1 := FInt(version), 2 := FArray(fields)]))
  {
    var a, b, c := Kv(0, Int(describes)), Kv(1, Int(version)), Kv(2, entries);
    assert [a, b, c] == [] + [a] + [b] + [c];
    var fa, fb, fc := FInt(describes), FInt(version), FArray(fields);
    assert map[0 := fa, 1 := fb, 2 := fc] == map[] + map[0 := fa] + map[1 := fb] + map[2 := fc];
    NothingStands(MetaTable(), held);
    FloorTypes();
    ScalarViews(held);
    InterpretIsRoot(Map([a, b, c]), held);
    hide *;
    StandsNext(MetaTable(), [], map[], 0, a.value, fa, held);
    StandsNext(MetaTable(), [] + [a], map[] + map[0 := fa], 1, b.value, fb, held);
    StandsNext(MetaTable(), [] + [a] + [b], map[] + map[0 := fa] + map[1 := fb], 2, c.value, fc, held);
    StandsAll(MetaTable(), [] + [a] + [b] + [c], map[] + map[0 := fa] + map[1 := fb] + map[2 := fc], held);
  }

  lemma InterpretIsRoot(v: Value, held: Held)
    ensures Interpret(MetaTable(), v, held) == InterpretMap(MetaTable(), v, held, 1)
  {
  }

  lemma TableInterprets(t: FieldTable, zs: Spelling, held: Held)
    requires HoldsFloor(held)
    ensures Interpret(MetaTable(), TableArtifact(t, zs), held) == Ok(TableInstance(t, zs))
  {
    hide Interpret, InterpretValue, EntryArtifacts, EntryFields, HoldsFloor, MetaTable;
    ArrayView(t.entries, zs, held);
    TableViews(t.describes, t.version, Array(EntryArtifacts(t.entries, zs)), EntryFields(t.entries, zs), held);
  }

  // -------------------------------------------- projecting the instances back

  /** One optional field added to a field map. */
  lemma OptionalField(m: map<int, Field>, more: map<int, Field>, written: bool, k: int, f: Field)
    requires more == if written then map[k := f] else map[]
    requires k !in m
    ensures forall x :: x in m + more <==> x in m || (written && x == k)
    ensures written ==> k in m + more && (m + more)[k] == f
    ensures forall x :: x in m ==> x in m + more && (m + more)[x] == m[x]
  {
  }

  lemma TypeInstanceFields(td: TypeDescriptor, z: Levels)
    ensures var inst := TypeInstance(td, z);
            && inst.IntAt(0) == Some(td.kind)
            && (inst.Has(1) <==> td.elem.Some?)
            && (inst.Has(2) <==> WritesTarget(td, z)) && (inst.Has(3) <==> WritesUnit(td, z))
            && (td.elem.Some? ==> inst.RefAt(1) == Some(TypeInstance(td.elem.value, Below(z))))
            && (WritesTarget(td, z) ==> inst.IntAt(2) == Some(td.target))
            && (WritesUnit(td, z) ==> inst.IntAt(3) == Some(td.unit))
            && forall k :: inst.Has(k) ==> 0 <= k < 4
  {
    var inner := if td.elem.Some? then FRef(TypeInstance(td.elem.value, Below(z))) else FInt(0);
    var fa: map<int, Field> := map[0 := FInt(td.kind)];
    var fb: map<int, Field> := if td.elem.Some? then map[1 := inner] else map[];
    var fc: map<int, Field> := if WritesTarget(td, z) then map[2 := FInt(td.target)] else map[];
    var fd: map<int, Field> := if WritesUnit(td, z) then map[3 := FInt(td.unit)] else map[];
    assert TypeInstance(td, z).fields == fa + fb + fc + fd;
    hide TypeInstance, TypeDescriptorTable, WritesTarget, WritesUnit;
    OptionalField(fa, fb, td.elem.Some?, 1, inner);
    OptionalField(fa + fb, fc, WritesTarget(td, z), 2, FInt(td.target));
    OptionalField(fa + fb + fc, fd, WritesUnit(td, z), 3, FInt(td.unit));
  }

  lemma {:induction false} TypeProjects(td: TypeDescriptor, z: Levels)
    requires OwnsItsFields(td)
    ensures ProjectDescriptor(TypeInstance(td, z)) == if TypeFits(td) then Ok(td) else Err(UnresolvedRef)
    decreases td
  {
    hide TypeInstance;
    TypeInstanceFields(td, z);
    if td.elem.Some? {
      TypeProjects(td.elem.value, Below(z));
    }
  }

  lemma EntryProjects(e: Entry, z: Levels)
    requires OwnsItsFields(e.typ)
    ensures ProjectEntry(EntryInstance(e, z)) == if EntryFits(e) then Ok(e) else Err(UnresolvedRef)
  {
    hide TypeInstance, ProjectDescriptor, OwnsItsFields, TypeFits;
    TypeProjects(e.typ, z);
  }

  lemma {:induction false} EntriesProject(entries: seq<Entry>, zs: Spelling, k: nat)
    requires k <= |entries| && forall i :: 0 <= i < |entries| ==> OwnsItsFields(entries[i].typ)
    ensures ProjectEntries(EntryFields(entries, zs), k)
         == if forall i :: 0 <= i < k ==> EntryFits(entries[i]) then Ok(entries[..k]) else Err(UnresolvedRef)
  {
    hide ProjectEntry, EntryInstance, EntryFits, OwnsItsFields;
    if k > 0 {
      EntriesProject(entries, zs, k - 1);
      EntryProjects(entries[k - 1], Of(zs, k - 1));
      assert entries[..k] == entries[..k - 1] + [entries[k - 1]];
    }
  }

  lemma TableProjects(t: FieldTable, zs: Spelling)
    requires TableOwnsItsFields(t)
    ensures ProjectTable(TableInstance(t, zs))
         == if !TableFits(t) then Err(UnresolvedRef)
            else if DenseKeys(t.entries) then Ok(t) else Err(MalformedFieldTable)
  {
    hide EntryFields, ProjectEntries, DenseKeys, EntryFits, OwnsItsFields;
    EntriesProject(t.entries, zs, |t.entries|);
    assert t.entries[..|t.entries|] == t.entries;
  }

  /**
   The verdict on a printed table whose kinds own their fields, in every spelling: unresolved
   exactly if some code does not fit a native int, else malformed exactly if the keys are not
   dense, else the table itself.
   */
  lemma PrintedTableVerdict(t: FieldTable, zs: Spelling, held: Held)
    requires HoldsFloor(held) && TableOwnsItsFields(t)
    ensures ParseFieldTable(TableArtifact(t, zs), held)
         == if !TableFits(t) then Err(UnresolvedRef)
            else if DenseKeys(t.entries) then Ok(t) else Err(MalformedFieldTable)
  {
    hide Interpret, ProjectTable, TableArtifact, TableInstance, TableFits, TableOwnsItsFields, DenseKeys, MetaTable;
    TableInterprets(t, zs, held);
    TableProjects(t, zs);
  }

  /** Every well-formed table is recovered exactly from its artifact, in every spelling. */
  lemma PrintThenParse(t: FieldTable, zs: Spelling, held: Held)
    requires HoldsFloor(held) && WellFormedTable(t)
    ensures ParseFieldTable(TableArtifact(t, zs), held) == Ok(t)
  {
    hide ParseFieldTable, TableArtifact, TableFits, TableOwnsItsFields, DenseKeys;
    PrintedTableVerdict(t, zs, held);
  }

  /** A table of one decimal field. */
  function OneDecimal(presence: int, unit: int): FieldTable {
    FieldTable(1024, 1, [Entry(0, [], TypeDescriptor(KIND_DECIMAL, None, 0, unit), presence)])
  }

  /** A presence code and a unit code are read as they are if they fit an int, and unresolved if not. */
  lemma PresenceAndUnitAreNotJudged(presence: int, unit: int, held: Held)
    requires HoldsFloor(held)
    ensures ParseFieldTable(TableArtifact(OneDecimal(presence, unit), []), held)
         == if IsInt64(presence) && IsInt64(unit) then Ok(OneDecimal(presence, unit)) else Err(UnresolvedRef)
  {
    hide ParseFieldTable, TableArtifact, HoldsFloor;
    var t := OneDecimal(presence, unit);
    PrintedTableVerdict(t, [], held);
    assert TableFits(t) <==> EntryFits(t.entries[0]);
  }

  /** For one, a presence and a unit that no enum of the format lists. */
  lemma UnlistedCodesAreRead(held: Held)
    requires HoldsFloor(held)
    ensures ParseFieldTable(TableArtifact(OneDecimal(99, 12345), []), held) == Ok(OneDecimal(99, 12345))
  {
    PresenceAndUnitAreNotJudged(99, 12345, held);
  }

  // --------------------------------------------------------- artifacts are normal values

  /** Entries keyed by small integers in ascending order, with normal values. */
  ghost predicate Ladder(entries: seq<MapEntry>, bound: int) {
    && (forall i :: 0 <= i < |entries| ==>
          entries[i].key.Int? && 0 <= entries[i].key.n < bound && Normal(entries[i].value))
    && (forall i, j :: 0 <= i < j < |entries| ==> entries[i].key.n < entries[j].key.n)
  }

  lemma LadderNext(entries: seq<MapEntry>, bound: nat, k: nat, v: Value)
    requires Ladder(entries, bound) && bound <= k && Normal(v)
    ensures Ladder(entries + [Kv(k, v)], k + 1)
  {
    hide Normal;
  }

  lemma LadderWider(entries: seq<MapEntry>, a: int, b: int)
    requires Ladder(entries, a) && a <= b
    ensures Ladder(entries, b)
  {
    hide Normal;
  }

  lemma LadderIsNormal(entries: seq<MapEntry>, bound: nat)
    requires Ladder(entries, bound) && bound <= 24
    ensures Normal(Map(entries))
  {
    forall i, j | 0 <= i < j < |entries| ensures Less(KeyBytes(entries[i].key), KeyBytes(entries[j].key)) {
      HeadOrder(0, entries[i].key.n, entries[j].key.n);
    }
    hide KeyBytes, Less;
    NormalMap(entries);
  }

  lemma ScalarsAreNormal()
    ensures forall n: int :: Normal(Int(n))
    ensures forall s: seq<Byte> :: Normal(Text(s))
  {
  }

  lemma NoLadder()
    ensures Ladder([], 0)
  {
  }

  lemma {:induction false} TypeArtifactIsNormal(td: TypeDescriptor, z: Levels)
    ensures Normal(TypeArtifact(td, z))
    decreases td
  {
    hide Normal;
    var a := [Kv(0, Int(td.kind))];
    var b := if td.elem.Some? then [Kv(1, TypeArtifact(td.elem.value, Below(z)))] else [];
    var c := if WritesTarget(td, z) then [Kv(2, Int(td.target))] else [];
    var d := if WritesUnit(td, z) then [Kv(3, Int(td.unit))] else [];
    assert TypeArtifact(td, z) == Map(a + b + c + d);
    ScalarsAreNormal();
    if td.elem.Some? {
      TypeArtifactIsNormal(td.elem.value, Below(z));
    }
    RungsAreNormal(td.kind, b, c, d);
  }

  /** Nothing, or one normal value under the key. */
  ghost predicate Rung(more: seq<MapEntry>, k: int) {
    more == [] || (|more| == 1 && more[0].key == Int(k) && Normal(more[0].value))
  }

  lemma RungsAreNormal(kind: int, b: seq<MapEntry>, c: seq<MapEntry>, d: seq<MapEntry>)
    requires Rung(b, 1) && Rung(c, 2) && Rung(d, 3)
    ensures Normal(Map([Kv(0, Int(kind))] + b + c + d))
  {
    var a := [Kv(0, Int(kind))];
    assert [] + a == a;
    hide *;
    ScalarsAreNormal();
    NoLadder();
    LadderNext([], 0, 0, Int(kind));
    LadderOptional(a, 1, b);
    LadderOptional(a + b, 2, c);
    LadderOptional(a + b + c, 3, d);
    LadderIsNormal(a + b + c + d, 4);
  }

  lemma LadderOptional(entries: seq<MapEntry>, k: nat, more: seq<MapEntry>)
    requires Ladder(entries, k) && Rung(more, k)
    ensures Ladder(entries + more, k + 1)
  {
    hide Normal;
    if more == [] {
      assert entries + more == entries;
      LadderWider(entries, k, k + 1);
    } else {
      assert more == [Kv(k, more[0].value)];
      LadderNext(entries, k, k, more[0].value);
    }
  }

  lemma EntryArtifactIsNormal(e: Entry, z: Levels)
    ensures Normal(EntryArtifact(e, z))
  {
    var a, b := Kv(0, Int(e.key)), Kv(1, Text(e.name));
    var c, d := Kv(2, TypeArtifact(e.typ, z)), Kv(3, Int(e.presence));
    assert EntryArtifact(e, z) == Map([] + [a] + [b] + [c] + [d]);
    hide *;
    ScalarsAreNormal();
    TypeArtifactIsNormal(e.typ, z);
    NoLadder();
    LadderNext([], 0, 0, a.value);
    LadderNext([] + [a], 1, 1, b.value);
    LadderNext([] + [a] + [b], 2, 2, c.value);
    LadderNext([] + [a] + [b] + [c], 3, 3, d.value);
    LadderIsNormal([] + [a] + [b] + [c] + [d], 4);
  }

  lemma EntryArtifactsAreNormal(entries: seq<Entry>, zs: Spelling)
    ensures Normal(Array(EntryArtifacts(entries, zs)))
  {
    hide EntryArtifact;
    forall i | 0 <= i < |entries| ensures Normal(EntryArtifacts(entries, zs)[i]) {
      EntryArtifactIsNormal(entries[i], Of(zs, i));
    }
  }

  lemma TableArtifactIsNormal(t: FieldTable, zs: Spelling)
    ensures Normal(TableArtifact(t, zs))
  {
    var a, b, c := Kv(0, Int(t.describes)), Kv(1, Int(t.version)), Kv(2, Array(EntryArtifacts(t.entries, zs)));
    assert TableArtifact(t, zs) == Map([] + [a] + [b] + [c]);
    hide *;
    ScalarsAreNormal();
    EntryArtifactsAreNormal(t.entries, zs);
    NoLadder();
    LadderNext([], 0, 0, a.value);
    LadderNext([] + [a], 1, 1, b.value);
    LadderNext([] + [a] + [b], 2, 2, c.value);
    LadderIsNormal([] + [a] + [b] + [c], 3);
  }
}
