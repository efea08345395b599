/**
 What each refusal of the interpreter means: it is given exactly when the first faulty field or
 element, in the order of the artifact, has the fault the refusal names; and only one fault can
 come from the registry (schema/interpret.go:20-58).
 */
module InterpretRefusals {
  import opened Conformance
  import opened Growth
  import opened Interpretation
  import opened Magnitudes
  import opened Results
  import opened Tables
  import opened Values

  /** `e` is wrong with the first entry of `v` that does not conform, or with `v` as a map. */
  ghost predicate MapFault(table: FieldTable, v: Value, held: Held, version: int, e: Reason)
    decreases v, 0
  {
    if v.Map? then
      exists i :: 0 <= i < |v.entries| && EntryFault(table, v.entries[i], held, version, e)
                  && forall j :: 0 <= j < i ==> ConformsEntry(table, v.entries[j], held, version)
    else e == TypeMismatch
  }

  ghost predicate EntryFault(table: FieldTable, ent: MapEntry, held: Held, version: int, e: Reason)
    decreases ent
  {
    if !ent.key.Int? then e == BadFieldKey
    else if !IsInt64(ent.key.n) || forall j :: 0 <= j < |table.entries| ==> table.entries[j].key != ent.key.n then
      e == UnknownField
    else exists j :: FirstWithKey(table.entries, j, ent.key.n)
                     && ValueFault(table.entries[j].typ, ent.value, held, version, e)
  }

  /** Kinds are written as their wire codes. */
  ghost predicate ValueFault(td: TypeDescriptor, v: Value, held: Held, version: int, e: Reason)
    decreases v, 1
  {
    if td.kind == 4 then DecimalFault(v, e)
    else if td.kind == 5 then RationalFault(v, e)
    else if td.kind == 7 then
      if RegKey(td.target, version) in held then MapFault(held[RegKey(td.target, version)], v, held, version, e)
      else e == UnresolvedRef
    else if WrongShape(td.kind, v) then e == TypeMismatch
    else if td.kind == 6 then
      if td.elem.None? then e == MalformedDescriptor
      else
        exists i :: 0 <= i < |v.items| && ValueFault(td.elem.value, v.items[i], held, version, e)
                    && forall j :: 0 <= j < i ==> Conforms(td.elem.value, v.items[j], held, version)
    else e == UnresolvedRef && !(0 <= td.kind <= 7)
  }

  ghost predicate DecimalFault(v: Value, e: Reason) {
    || (e == BadMagnitude && forall s, m :: !IsPair(v, s, m))
    || (e == NonCanonicalDecimal && exists s, m :: IsPair(v, s, m) && CheckDecimal(s, m).Some?)
  }

  ghost predicate RationalFault(v: Value, e: Reason) {
    || (e == BadMagnitude && forall a, b :: !IsPair(v, a, b))
    || (e == NonCanonicalRational && exists a, b :: IsPair(v, a, b) && CheckRational(a, b).Some?)
  }

  predicate WrongShape(kind: int, v: Value) {
    || (kind == 0 && !v.Int?)
    || (kind == 1 && !v.Bytes?)
    || (kind == 2 && !v.Text?)
    || (kind == 3 && !v.Bool?)
    || (kind == 6 && !v.Array?)
  }

  // ------------------------------------------------------------------ the loops

  lemma {:induction false} FirstRefusedEntry(
      table: FieldTable, entries: seq<MapEntry>, k: nat, held: Held, version: int) returns (i: nat)
    requires k <= |entries| && InterpretEntries(table, entries, k, held, version).Err?
    ensures i < k && InterpretEntries(table, entries, i, held, version).Ok?
    ensures InterpretEntry(table, entries[i], held, version)
         == Err(InterpretEntries(table, entries, k, held, version).error)
  {
    hide InterpretEntry;
    if InterpretEntries(table, entries, k - 1, held, version).Err? {
      i := FirstRefusedEntry(table, entries, k - 1, held, version);
    } else {
      i := k - 1;
    }
  }

  lemma EntriesRefusedAt(table: FieldTable, entries: seq<MapEntry>, i: nat, held: Held, version: int)
    requires i < |entries| && InterpretEntry(table, entries[i], held, version).Err?
    requires forall j :: 0 <= j < i ==> InterpretEntry(table, entries[j], held, version).Ok?
    ensures InterpretEntries(table, entries, |entries|, held, version)
         == Err(InterpretEntry(table, entries[i], held, version).error)
  {
    hide InterpretEntry;
    EntriesAllOk(table, entries, i, held, version);
    EntryRefusalStands(table, entries, i + 1, |entries|, held, version);
  }

  lemma {:induction false} FirstRefusedItem(
      td: TypeDescriptor, items: seq<Value>, k: nat, held: Held, version: int) returns (i: nat)
    requires k <= |items| && InterpretItems(td, items, k, held, version).Err?
    ensures i < k && InterpretItems(td, items, i, held, version).Ok?
    ensures InterpretValue(td, items[i], held, version) == Err(InterpretItems(td, items, k, held, version).error)
  {
    hide InterpretValue;
    if InterpretItems(td, items, k - 1, held, version).Err? {
      i := FirstRefusedItem(td, items, k - 1, held, version);
    } else {
      i := k - 1;
    }
  }

  lemma ItemsRefusedAt(td: TypeDescriptor, items: seq<Value>, i: nat, held: Held, version: int)
    requires i < |items| && InterpretValue(td, items[i], held, version).Err?
    requires forall j :: 0 <= j < i ==> InterpretValue(td, items[j], held, version).Ok?
    ensures InterpretItems(td, items, |items|, held, version)
         == Err(InterpretValue(td, items[i], held, version).error)
  {
    hide InterpretValue;
    ItemsPointwise(td, items, i, held, version);
    ItemRefusalStands(td, items, i + 1, |items|, held, version);
  }

  // -------------------------------------------------------------- the recursion

  lemma {:induction false} MapRefusedExactly(table: FieldTable, v: Value, held: Held, version: int, e: Reason)
    ensures InterpretMap(table, v, held, version) == Err(e) <==> MapFault(table, v, held, version, e)
    decreases v, 0
  {
    hide InterpretEntry, InterpretEntries, EntryFault, ConformsEntry;
    if v.Map? {
      forall i | 0 <= i < |v.entries|
        ensures InterpretEntry(table, v.entries[i], held, version) == Err(e)
           <==> EntryFault(table, v.entries[i], held, version, e)
        ensures InterpretEntry(table, v.entries[i], held, version).Ok?
           <==> ConformsEntry(table, v.entries[i], held, version)
      {
        assert v.entries[i] < v;
        EntryRefusedExactly(table, v.entries[i], held, version, e);
        EntryConforms(table, v.entries[i], held, version);
      }
      if InterpretMap(table, v, held, version) == Err(e) {
        var i := FirstRefusedEntry(table, v.entries, |v.entries|, held, version);
        EntriesAllOk(table, v.entries, i, held, version);
      }
      if i :| 0 <= i < |v.entries| && EntryFault(table, v.entries[i], held, version, e)
              && forall j :: 0 <= j < i ==> ConformsEntry(table, v.entries[j], held, version) {
        EntriesRefusedAt(table, v.entries, i, held, version);
      }
    }
  }

  lemma {:induction false} EntryRefusedExactly(table: FieldTable, ent: MapEntry, held: Held, version: int, e: Reason)
    ensures InterpretEntry(table, ent, held, version) == Err(e) <==> EntryFault(table, ent, held, version, e)
    decreases ent
  {
    hide InterpretValue, ValueFault;
    if ent.key.Int? && IsInt64(ent.key.n) && EntryByKey(table.entries, ent.key.n).Some? {
      var j := FoundIsFirst(table.entries, ent.key.n);
      ValueRefusedExactly(table.entries[j].typ, ent.value, held, version, e);
      forall i | FirstWithKey(table.entries, i, ent.key.n) ensures i == j {
      }
    }
  }

  lemma {:induction false} ValueRefusedExactly(td: TypeDescriptor, v: Value, held: Held, version: int, e: Reason)
    ensures InterpretValue(td, v, held, version) == Err(e) <==> ValueFault(td, v, held, version, e)
    decreases v, 1
  {
    hide InterpretValue, ValueFault, InterpretMap, MapFault;
    if td.kind == 4 || td.kind == 5 {
      MagnitudeRefused(td, v, held, version, e);
    } else if td.kind == 6 && v.Array? && td.elem.Some? {
      ItemsRefusedExactly(td, v, held, version, e);
    } else if td.kind == 7 && RegKey(td.target, version) in held {
      MapRefusedExactly(held[RegKey(td.target, version)], v, held, version, e);
      RefRefused(td, v, held, version, e);
    } else {
      ShapeRefused(td, v, held, version, e);
    }
  }

  lemma {:induction false} ItemsRefusedExactly(td: TypeDescriptor, v: Value, held: Held, version: int, e: Reason)
    requires td.kind == 6 && v.Array? && td.elem.Some?
    ensures InterpretValue(td, v, held, version) == Err(e) <==> ValueFault(td, v, held, version, e)
    decreases v, 0
  {
    hide InterpretValue, InterpretItems, ValueFault, Conforms;
    var elem := td.elem.value;
    ArrayRefused(td, v, held, version, e);
    forall i | 0 <= i < |v.items|
      ensures InterpretValue(elem, v.items[i], held, version) == Err(e)
         <==> ValueFault(elem, v.items[i], held, version, e)
      ensures InterpretValue(elem, v.items[i], held, version).Ok? <==> Conforms(elem, v.items[i], held, version)
    {
      ValueRefusedExactly(elem, v.items[i], held, version, e);
      ValueConforms(elem, v.items[i], held, version);
    }
    if InterpretItems(elem, v.items, |v.items|, held, version) == Err(e) {
      var i := FirstRefusedItem(elem, v.items, |v.items|, held, version);
      ItemsPointwise(elem, v.items, i, held, version);
    }
    if i :| 0 <= i < |v.items| && ValueFault(elem, v.items[i], held, version, e)
            && forall j :: 0 <= j < i ==> Conforms(elem, v.items[j], held, version) {
      ItemsRefusedAt(elem, v.items, i, held, version);
    }
  }

  /** An array is refused as its items are. */
  lemma ArrayRefused(td: TypeDescriptor, v: Value, held: Held, version: int, e: Reason)
    requires td.kind == 6 && v.Array? && td.elem.Some?
    ensures InterpretValue(td, v, held, version) == Err(e)
       <==> InterpretItems(td.elem.value, v.items, |v.items|, held, version) == Err(e)
    ensures ValueFault(td, v, held, version, e)
       <==> exists i :: 0 <= i < |v.items| && ValueFault(td.elem.value, v.items[i], held, version, e)
                        && forall j :: 0 <= j < i ==> Conforms(td.elem.value, v.items[j], held, version)
  {
    hide InterpretItems, MapFault, DecimalFault, RationalFault, Conforms;
  }

  /** A ref is refused as the table it leads to refuses. */
  lemma RefRefused(td: TypeDescriptor, v: Value, held: Held, version: int, e: Reason)
    requires td.kind == 7 && RegKey(td.target, version) in held
    ensures var t := held[RegKey(td.target, version)];
            && (InterpretValue(td, v, held, version) == Err(e) <==> InterpretMap(t, v, held, version) == Err(e))
            && (ValueFault(td, v, held, version, e) <==> MapFault(t, v, held, version, e))
  {
    hide InterpretMap, MapFault;
  }

  /** Everything else is settled by the kind and the constructor of the value. */
  lemma ShapeRefused(td: TypeDescriptor, v: Value, held: Held, version: int, e: Reason)
    requires td.kind != 4 && td.kind != 5
    requires td.kind == 6 ==> !v.Array? || td.elem.None?
    requires td.kind == 7 ==> RegKey(td.target, version) !in held
    ensures InterpretValue(td, v, held, version) == Err(e) <==> ValueFault(td, v, held, version, e)
  {
    hide InterpretMap, MapFault, InterpretItems, DecimalFault, RationalFault;
  }

  lemma MagnitudeRefused(td: TypeDescriptor, v: Value, held: Held, version: int, e: Reason)
    requires td.kind == 4 || td.kind == 5
    ensures InterpretValue(td, v, held, version) == Err(e) <==> ValueFault(td, v, held, version, e)
  {
    hide InterpretMap, MapFault, InterpretItems, CheckDecimal, CheckRational, TwoInts, IsPair;
    TwoIntsShape(v);
  }

  // ------------------------------------------------------------- the theorems

  /** `Interpret` refuses with a reason exactly when it is the first fault of the artifact. */
  lemma InterpretRefusesFaults(table: FieldTable, v: Value, held: Held, e: Reason)
    ensures Interpret(table, v, held) == Err(e) <==> MapFault(table, v, held, table.version, e)
  {
    hide InterpretMap, MapFault;
    MapRefusedExactly(table, v, held, table.version, e);
  }

  /** An artifact with nothing unresolved gets one verdict from every registry grown from this one. */
  lemma NothingUnresolvedNothingChanges(table: FieldTable, v: Value, held: Held, ts: seq<FieldTable>)
    requires AddAll(held, ts).Some?
    requires !MapFault(table, v, held, table.version, UnresolvedRef)
    ensures Interpret(table, v, AddAll(held, ts).value) == Interpret(table, v, held)
  {
    hide InterpretMap, MapFault, AddAll;
    InterpretRefusesFaults(table, v, held, UnresolvedRef);
    GrowthKeepsVerdicts(table, v, held, ts);
  }

  /** The exception is needed: adding the missing table turns an unresolved ref into an instance. */
  lemma AdditionCanResolve(held: Held)
    requires RegKey(1024, 1) !in held
    ensures var t := FieldTable(1025, 1, [Entry(0, [], TypeDescriptor(KIND_REF, None, 1024, 0), 0)]);
            var v := Map([MapEntry(Int(0), Map([]))]);
            var missing := FieldTable(1024, 1, []);
            && Interpret(t, v, held) == Err(UnresolvedRef)
            && AddAll(held, [missing]).Some?
            && Interpret(t, v, AddAll(held, [missing]).value).Ok?
  {
  }
}
