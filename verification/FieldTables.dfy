/**
 Loading a field table from its artifact: interpretation under the meta-table, then
 projection into the table it describes (schema/fieldtable.go).
 */
module FieldTables {
  import opened Floor
  import opened Interpretation
  import opened InterpreterMachine
  import opened Results
  import opened Tables
  import opened Values

  function ParseFieldTable(v: Value, held: Held): Result<FieldTable, Reason> {
    var inst :- Interpret(MetaTable(), v, held);
    ProjectTable(inst)
  }

  function ProjectTable(inst: Instance): Result<FieldTable, Reason> {
    if !inst.Has(0) || !inst.Has(1) || !inst.Has(2) then Err(MalformedFieldTable)
    else
      var describes :- ToInt(inst.IntAt(0));
      var version :- ToInt(inst.IntAt(1));
      var raw := OrEmpty(inst.ArrayAt(2));
      var entries :- ProjectEntries(raw, |raw|);
      if !DenseKeys(entries) then Err(MalformedFieldTable)
      else Ok(FieldTable(describes, version, entries))
  }

  /** An accessor's result when its success flag is ignored. */
  function OrEmpty<T>(s: Option<seq<T>>): seq<T> {
    if s.Some? then s.value else []
  }

  /** A wire integer narrowed to a native int; what does not fit is a code nobody can resolve. */
  function ToInt(n: Option<int>): Result<int, Reason> {
    if n.None? || !IsInt64(n.value) then Err(UnresolvedRef) else Ok(n.value)
  }

  /** At least one entry, and keys 0, 1, ..., n-1 in order. */
  predicate DenseKeys(entries: seq<Entry>) {
    entries != [] && forall i :: 0 <= i < |entries| ==> entries[i].key == i
  }

  function ProjectEntries(raw: seq<Field>, k: nat): (r: Result<seq<Entry>, Reason>)
    requires k <= |raw|
    ensures r.Ok? ==> |r.value| == k
  {
    if k == 0 then Ok([])
    else
      var front :- ProjectEntries(raw, k - 1);
      if !raw[k - 1].FRef? then Err(TypeMismatch)
      else
        var last :- ProjectEntry(raw[k - 1].inst);
        Ok(front + [last])
  }

  function ProjectEntry(inst: Instance): Result<Entry, Reason> {
    if !inst.Has(0) || !inst.Has(1) || !inst.Has(2) || !inst.Has(3) then Err(MalformedEntry)
    else
      var key :- ToInt(inst.IntAt(0));
      var presence :- ToInt(inst.IntAt(3));
      var typ := inst.RefAt(2);
      if typ.None? then Err(TypeMismatch)
      else
        var td :- ProjectDescriptor(typ.value);
        Ok(Entry(key, OrEmpty(inst.TextAt(1)), td, presence))
  }

  function ProjectDescriptor(inst: Instance): Result<TypeDescriptor, Reason>
    decreases inst
  {
    if !inst.Has(0) then Err(MalformedDescriptor)
    else
      var kind :- ToInt(inst.IntAt(0));
      var elem :- ProjectElement(inst);
      var target :- OptionalCode(inst, 2);
      var unit :- OptionalCode(inst, 3);
      if !FieldsMatchKind(kind, inst.Has(1), inst.Has(2), inst.Has(3)) then Err(MalformedDescriptor)
      else Ok(TypeDescriptor(kind, elem, target, unit))
  }

  /** The element type, when the descriptor carries one. */
  function ProjectElement(inst: Instance): Result<Option<TypeDescriptor>, Reason>
    decreases inst, 0
  {
    if !inst.Has(1) then Ok(None)
    else if inst.RefAt(1).None? then Err(TypeMismatch)
    else
      assert inst.fields[1].inst < inst.fields[1] < inst;
      var elem :- ProjectDescriptor(inst.fields[1].inst);
      Ok(Some(elem))
  }

  /** A code that is zero when its field is absent. */
  function OptionalCode(inst: Instance, key: int): Result<int, Reason> {
    if !inst.Has(key) then Ok(0) else ToInt(inst.IntAt(key))
  }

  /** Each known kind requires its own field and forbids the others'; an unknown kind is not judged. */
  predicate FieldsMatchKind(kind: int, hasElem: bool, hasTarget: bool, hasUnit: bool) {
    if kind in {KIND_INT, KIND_BYTES, KIND_TEXT, KIND_BOOL} then !hasElem && !hasTarget && !hasUnit
    else if kind == KIND_ARRAY then hasElem && !hasTarget && !hasUnit
    else if kind == KIND_REF then hasTarget && !hasElem && !hasUnit
    else if kind in {KIND_DECIMAL, KIND_RATIONAL} then hasUnit && !hasElem && !hasTarget
    else true
  }

  lemma {:induction false} EntryRefusalStands(raw: seq<Field>, j: nat, k: nat)
    requires j <= k <= |raw| && ProjectEntries(raw, j).Err?
    ensures ProjectEntries(raw, k) == ProjectEntries(raw, j)
    decreases k - j
  {
    if j < k {
      EntryRefusalStands(raw, j, k - 1);
    }
  }

  // ------------------------------------------------------------- the procedures

  method LoadFieldTable(v: Value, reg: Registry) returns (r: Result<FieldTable, Reason>)
    ensures r == ParseFieldTable(v, reg.tables)
  {
    var view := InterpretArtifact(MetaTable(), v, reg);
    if view.Err? {
      return Err(view.error);
    }
    var inst := view.value;
    for k := 0 to 3
      invariant forall j :: 0 <= j < k ==> inst.Has(j)
    {
      if !inst.Has(k) {
        return Err(MalformedFieldTable);
      }
    }
    var describes := ToInt(inst.IntAt(0));
    if describes.Err? {
      return Err(describes.error);
    }
    var version := ToInt(inst.IntAt(1));
    if version.Err? {
      return Err(version.error);
    }
    var raw := OrEmpty(inst.ArrayAt(2));
    var entries: seq<Entry> := [];
    var i := 0;
    while i < |raw|
      invariant 0 <= i <= |raw|
      invariant ProjectEntries(raw, i) == Ok(entries)
    {
      if !raw[i].FRef? {
        EntryRefusalStands(raw, i + 1, |raw|);
        return Err(TypeMismatch);
      }
      var ent := LoadEntry(raw[i].inst);
      if ent.Err? {
        EntryRefusalStands(raw, i + 1, |raw|);
        return Err(ent.error);
      }
      entries := entries + [ent.value];
      i := i + 1;
    }
    var bad := ValidateEntryKeys(entries);
    if bad.Some? {
      return Err(bad.value);
    }
    r := Ok(FieldTable(describes.value, version.value, entries));
  }

  method ValidateEntryKeys(entries: seq<Entry>) returns (bad: Option<Reason>)
    ensures bad == if DenseKeys(entries) then None else Some(MalformedFieldTable)
  {
    if |entries| == 0 {
      return Some(MalformedFieldTable);
    }
    var i := 0;
    while i < |entries|
      invariant 0 <= i <= |entries|
      invariant forall j :: 0 <= j < i ==> entries[j].key == j
    {
      if entries[i].key != i {
        return Some(MalformedFieldTable);
      }
      i := i + 1;
    }
    bad := None;
  }

  method LoadEntry(inst: Instance) returns (r: Result<Entry, Reason>)
    ensures r == ProjectEntry(inst)
  {
    for k := 0 to 4
      invariant forall j :: 0 <= j < k ==> inst.Has(j)
    {
      if !inst.Has(k) {
        return Err(MalformedEntry);
      }
    }
    var key := ToInt(inst.IntAt(0));
    if key.Err? {
      return Err(key.error);
    }
    var presence := ToInt(inst.IntAt(3));
    if presence.Err? {
      return Err(presence.error);
    }
    var typ := inst.RefAt(2);
    if typ.None? {
      return Err(TypeMismatch);
    }
    var td := LoadDescriptor(typ.value);
    if td.Err? {
      return Err(td.error);
    }
    r := Ok(Entry(key.value, OrEmpty(inst.TextAt(1)), td.value, presence.value));
  }

  /** Fills a descriptor field by field, then judges the fields against the kind. */
  method LoadDescriptor(inst: Instance) returns (r: Result<TypeDescriptor, Reason>)
    ensures r == ProjectDescriptor(inst)
    decreases inst
  {
    if !inst.Has(0) {
      return Err(MalformedDescriptor);
    }
    var kind := ToInt(inst.IntAt(0));
    if kind.Err? {
      return Err(kind.error);
    }
    var td := TypeDescriptor(kind.value, None, 0, 0);
    if inst.Has(1) {
      if inst.RefAt(1).None? {
        return Err(TypeMismatch);
      }
      assert inst.fields[1].inst < inst.fields[1] < inst;
      var elem := LoadDescriptor(inst.fields[1].inst);
      if elem.Err? {
        return Err(elem.error);
      }
      td := td.(elem := Some(elem.value));
    }
    if inst.Has(2) {
      var target := ToInt(inst.IntAt(2));
      if target.Err? {
        return Err(target.error);
      }
      td := td.(target := target.value);
    }
    if inst.Has(3) {
      var unit := ToInt(inst.IntAt(3));
      if unit.Err? {
        return Err(unit.error);
      }
      td := td.(unit := unit.value);
    }
    if !FieldsMatchKind(td.kind, inst.Has(1), inst.Has(2), inst.Has(3)) {
      return Err(MalformedDescriptor);
    }
    r := Ok(td);
  }
}
