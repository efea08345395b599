/**
 Which values a table accepts, stated as a relation on values: interpretation succeeds
 exactly on the conforming ones, and returns an instance well typed at every level.
 */
module Conformance {
  import opened Interpretation
  import opened Magnitudes
  import opened Results
  import opened Tables
  import opened Values

  /** A map all of whose keys name fields of the table, each with a value of the field's type. */
  ghost predicate ConformsMap(table: FieldTable, v: Value, held: Held, version: int)
    decreases v, 0
  {
    v.Map? && forall i :: 0 <= i < |v.entries| ==> ConformsEntry(table, v.entries[i], held, version)
  }

  ghost predicate ConformsEntry(table: FieldTable, e: MapEntry, held: Held, version: int)
    decreases e
  {
    && e.key.Int? && IsInt64(e.key.n)
    && exists j :: FirstWithKey(table.entries, j, e.key.n)
                   && Conforms(table.entries[j].typ, e.value, held, version)
  }

  /** Entry `j` is the first with `key`: the one a table with repeated keys resolves it to. */
  ghost predicate FirstWithKey(entries: seq<Entry>, j: int, key: int) {
    && 0 <= j < |entries| && entries[j].key == key
    && forall l :: 0 <= l < j ==> entries[l].key != key
  }

  /** The wire shape of a magnitude. */
  predicate IsPair(v: Value, a: int, b: int) {
    v == Array([Int(a), Int(b)])
  }

  ghost predicate Conforms(td: TypeDescriptor, v: Value, held: Held, version: int)
    decreases v, 1
  {
    || (td.kind == KIND_INT && v.Int?)
    || (td.kind == KIND_BYTES && v.Bytes?)
    || (td.kind == KIND_TEXT && v.Text?)
    || (td.kind == KIND_BOOL && v.Bool?)
    || (td.kind == KIND_DECIMAL && exists s, m :: IsPair(v, s, m) && CheckDecimal(s, m).None?)
    || (td.kind == KIND_RATIONAL && exists a, b :: IsPair(v, a, b) && CheckRational(a, b).None?)
    || (td.kind == KIND_ARRAY && td.elem.Some? && v.Array?
        && forall i :: 0 <= i < |v.items| ==> Conforms(td.elem.value, v.items[i], held, version))
    || (td.kind == KIND_REF && RegKey(td.target, version) in held
        && ConformsMap(held[RegKey(td.target, version)], v, held, version))
  }

  /** A field whose value is of its type, down to every nested instance and element. */
  ghost predicate Typed(td: TypeDescriptor, f: Field, held: Held, version: int)
    decreases f
  {
    match f
    case FInt(_) => td.kind == KIND_INT
    case FBytes(_) => td.kind == KIND_BYTES
    case FText(_) => td.kind == KIND_TEXT
    case FBool(_) => td.kind == KIND_BOOL
    case FDecimal(s, m) => td.kind == KIND_DECIMAL && CheckDecimal(s, m).None?
    case FRational(a, b) => td.kind == KIND_RATIONAL && CheckRational(a, b).None?
    case FArray(items) =>
      td.kind == KIND_ARRAY && td.elem.Some?
      && forall i :: 0 <= i < |items| ==> Typed(td.elem.value, items[i], held, version)
    case FRef(inst) =>
      td.kind == KIND_REF && RegKey(td.target, version) in held
      && TypedInstance(held[RegKey(td.target, version)], inst, held, version)
  }

  /** An instance of `table`, every field of which the table defines and types. */
  ghost predicate TypedInstance(table: FieldTable, inst: Instance, held: Held, version: int)
    decreases inst
  {
    && inst.table == table && inst.version == version
    && forall k :: k in inst.fields ==>
         IsInt64(k) && EntryByKey(table.entries, k).Some?
         && Typed(EntryByKey(table.entries, k).value.typ, inst.fields[k], held, version)
  }

  lemma {:induction false} FirstIsFound(entries: seq<Entry>, j: int, key: int)
    requires FirstWithKey(entries, j, key)
    ensures EntryByKey(entries, key) == Some(entries[j])
  {
    if j > 0 {
      FirstIsFound(entries[1..], j - 1, key);
    }
  }

  lemma {:induction false} FoundIsFirst(entries: seq<Entry>, key: int) returns (j: int)
    requires EntryByKey(entries, key).Some?
    ensures FirstWithKey(entries, j, key) && EntryByKey(entries, key) == Some(entries[j])
  {
    if entries[0].key == key {
      j := 0;
    } else {
      var i := FoundIsFirst(entries[1..], key);
      j := i + 1;
    }
  }

  // ------------------------------------------------ success means conformance

  lemma {:induction false} MapConforms(table: FieldTable, v: Value, held: Held, version: int)
    ensures InterpretMap(table, v, held, version).Ok? <==> ConformsMap(table, v, held, version)
    decreases v, 0
  {
    hide InterpretEntry, ConformsEntry;
    if v.Map? {
      EntriesPointwise(table, v.entries, |v.entries|, held, version);
      forall i | 0 <= i < |v.entries|
        ensures InterpretEntry(table, v.entries[i], held, version).Ok?
           <==> ConformsEntry(table, v.entries[i], held, version)
      {
        EntryConforms(table, v.entries[i], held, version);
      }
    }
  }

  lemma {:induction false} EntryConforms(table: FieldTable, e: MapEntry, held: Held, version: int)
    ensures InterpretEntry(table, e, held, version).Ok? <==> ConformsEntry(table, e, held, version)
    decreases e
  {
    hide InterpretValue, Conforms;
    if e.key.Int? {
      var key := e.key.n;
      if EntryByKey(table.entries, key).Some? {
        var j := FoundIsFirst(table.entries, key);
        ValueConforms(table.entries[j].typ, e.value, held, version);
      }
      if j :| FirstWithKey(table.entries, j, key) && Conforms(table.entries[j].typ, e.value, held, version) {
        FirstIsFound(table.entries, j, key);
      }
    }
  }

  lemma TwoIntsShape(v: Value)
    ensures forall a, b :: IsPair(v, a, b) ==> TwoInts(v) == Ok((a, b))
    ensures match TwoInts(v)
            case Ok(pair) => IsPair(v, pair.0, pair.1)
            case Err(why) => why == BadMagnitude
  {
    if TwoInts(v).Ok? {
      assert v.items == [Int(v.items[0].n), Int(v.items[1].n)];
    }
  }

  lemma {:induction false} ValueConforms(td: TypeDescriptor, v: Value, held: Held, version: int)
    ensures InterpretValue(td, v, held, version).Ok? <==> Conforms(td, v, held, version)
    decreases v, 1
  {
    hide InterpretMap, ConformsMap, InterpretItems, CheckDecimal, CheckRational, TwoInts, IsPair;
    if td.kind == KIND_DECIMAL || td.kind == KIND_RATIONAL {
      TwoIntsShape(v);
    } else if td.kind == KIND_ARRAY {
      if v.Array? && td.elem.Some? {
        ItemsPointwise(td.elem.value, v.items, |v.items|, held, version);
        forall i | 0 <= i < |v.items|
          ensures InterpretValue(td.elem.value, v.items[i], held, version).Ok?
             <==> Conforms(td.elem.value, v.items[i], held, version)
        {
          ValueConforms(td.elem.value, v.items[i], held, version);
        }
      }
    } else if td.kind == KIND_REF {
      if RegKey(td.target, version) in held {
        MapConforms(held[RegKey(td.target, version)], v, held, version);
      }
    }
  }

  // --------------------------------------------------- and the result is typed

  lemma {:induction false} MapIsTyped(table: FieldTable, v: Value, held: Held, version: int)
    requires InterpretMap(table, v, held, version).Ok?
    ensures TypedInstance(table, InterpretMap(table, v, held, version).value, held, version)
    decreases v, 0
  {
    hide InterpretEntry, Typed;
    var fields := InterpretMap(table, v, held, version).value.fields;
    EntriesPointwise(table, v.entries, |v.entries|, held, version);
    forall k | k in fields
      ensures IsInt64(k) && EntryByKey(table.entries, k).Some?
      ensures Typed(EntryByKey(table.entries, k).value.typ, fields[k], held, version)
    {
      var i := LastOf(v.entries, |v.entries|, k);
      EntryIsTyped(table, v.entries[i], held, version);
    }
  }

  /** Some entry is the last with a key that occurs. */
  lemma {:induction false} LastOf(entries: seq<MapEntry>, k: nat, key: int) returns (i: int)
    requires k <= |entries| && exists i :: 0 <= i < k && entries[i].key == Int(key)
    ensures LastWithKey(entries, i, k) && entries[i].key == Int(key)
  {
    if entries[k - 1].key == Int(key) {
      i := k - 1;
    } else {
      i := LastOf(entries, k - 1, key);
    }
  }

  lemma {:induction false} EntryIsTyped(table: FieldTable, e: MapEntry, held: Held, version: int)
    requires InterpretEntry(table, e, held, version).Ok?
    ensures IsInt64(e.key.n) && EntryByKey(table.entries, e.key.n).Some?
    ensures Typed(EntryByKey(table.entries, e.key.n).value.typ,
                  InterpretEntry(table, e, held, version).value, held, version)
    decreases e
  {
    ValueIsTyped(EntryByKey(table.entries, e.key.n).value.typ, e.value, held, version);
  }

  lemma {:induction false} ValueIsTyped(td: TypeDescriptor, v: Value, held: Held, version: int)
    requires InterpretValue(td, v, held, version).Ok?
    ensures Typed(td, InterpretValue(td, v, held, version).value, held, version)
    decreases v, 1
  {
    hide InterpretMap, TypedInstance, InterpretItems, CheckDecimal, CheckRational;
    if td.kind == KIND_ARRAY {
      var fields := InterpretItems(td.elem.value, v.items, |v.items|, held, version).value;
      ItemsPointwise(td.elem.value, v.items, |v.items|, held, version);
      forall i | 0 <= i < |fields| ensures Typed(td.elem.value, fields[i], held, version) {
        ValueIsTyped(td.elem.value, v.items[i], held, version);
      }
    } else if td.kind == KIND_REF {
      MapIsTyped(held[RegKey(td.target, version)], v, held, version);
    }
  }

  /** Interpretation succeeds exactly on conforming values, and its result is well typed throughout. */
  lemma InterpretSucceedsOnConforming(table: FieldTable, v: Value, held: Held)
    ensures Interpret(table, v, held).Ok? <==> ConformsMap(table, v, held, table.version)
    ensures Interpret(table, v, held).Ok?
        ==> TypedInstance(table, Interpret(table, v, held).value, held, table.version)
    ensures Interpret(table, v, held).Ok?
        ==> forall k :: k in Interpret(table, v, held).value.fields
                   <==> exists i :: 0 <= i < |v.entries| && v.entries[i].key == Int(k)
  {
    MapConforms(table, v, held, table.version);
    if Interpret(table, v, held).Ok? {
      MapIsTyped(table, v, held, table.version);
      EntriesPointwise(table, v.entries, |v.entries|, held, table.version);
    }
  }

  // ------------------------------------- nesting is bounded by the value, not the tables

  /** Nothing in the value nests deeper than `n`. */
  ghost predicate ValueWithin(v: Value, n: nat)
    decreases v
  {
    match v
    case Array(items) => n > 0 && forall i :: 0 <= i < |items| ==> ValueWithin(items[i], n - 1)
    case Map(entries) => n > 0 && forall i :: 0 <= i < |entries| ==> EntryWithin(entries[i], n - 1)
    case _ => true
  }

  ghost predicate EntryWithin(e: MapEntry, n: nat)
    decreases e
  {
    ValueWithin(e.value, n)
  }

  /** Nothing in the field nests deeper than `n`: each ref and each array is one level. */
  ghost predicate FieldWithin(f: Field, n: nat)
    decreases f
  {
    match f
    case FArray(items) => n > 0 && forall i :: 0 <= i < |items| ==> FieldWithin(items[i], n - 1)
    case FRef(inst) => InstanceWithin(inst, n)
    case _ => true
  }

  ghost predicate InstanceWithin(inst: Instance, n: nat)
    decreases inst
  {
    n > 0 && forall k :: k in inst.fields ==> FieldWithin(inst.fields[k], n - 1)
  }

  lemma {:induction false} FieldStaysWithin(td: TypeDescriptor, v: Value, held: Held, version: int, n: nat)
    requires ValueWithin(v, n) && InterpretValue(td, v, held, version).Ok?
    ensures FieldWithin(InterpretValue(td, v, held, version).value, n)
    decreases v, 1
  {
    hide InterpretMap, InstanceWithin, InterpretItems, CheckDecimal, CheckRational;
    if td.kind == KIND_ARRAY {
      var fields := InterpretItems(td.elem.value, v.items, |v.items|, held, version).value;
      ItemsPointwise(td.elem.value, v.items, |v.items|, held, version);
      forall i | 0 <= i < |fields| ensures FieldWithin(fields[i], n - 1) {
        FieldStaysWithin(td.elem.value, v.items[i], held, version, n - 1);
      }
    } else if td.kind == KIND_REF {
      MapStaysWithin(held[RegKey(td.target, version)], v, held, version, n);
    }
  }

  lemma {:induction false} EntryStaysWithin(table: FieldTable, e: MapEntry, held: Held, version: int, n: nat)
    requires EntryWithin(e, n) && InterpretEntry(table, e, held, version).Ok?
    ensures FieldWithin(InterpretEntry(table, e, held, version).value, n)
    decreases e
  {
    FieldStaysWithin(EntryByKey(table.entries, e.key.n).value.typ, e.value, held, version, n);
  }

  /**
   Whatever the tables refer to, themselves included, the instance nests no deeper than the
   value: a ref step stays on the value and only an entry or an element goes down.
   */
  lemma {:induction false} MapStaysWithin(table: FieldTable, v: Value, held: Held, version: int, n: nat)
    requires ValueWithin(v, n) && InterpretMap(table, v, held, version).Ok?
    ensures InstanceWithin(InterpretMap(table, v, held, version).value, n)
    decreases v, 0
  {
    hide InterpretEntry, InterpretEntries, FieldWithin, EntryWithin;
    var fields := InterpretMap(table, v, held, version).value.fields;
    forall k | k in fields ensures FieldWithin(fields[k], n - 1) {
      var i := EntryOf(table, v.entries, held, version, k);
      assert v.entries[i] < v;
      EntryStaysWithin(table, v.entries[i], held, version, n - 1);
    }
  }

  /** The entry a field of the instance came from. */
  lemma EntryOf(table: FieldTable, entries: seq<MapEntry>, held: Held, version: int, key: int) returns (i: int)
    requires var r := InterpretEntries(table, entries, |entries|, held, version); r.Ok? && key in r.value
    ensures 0 <= i < |entries| && InterpretEntry(table, entries[i], held, version)
         == Ok(InterpretEntries(table, entries, |entries|, held, version).value[key])
  {
    hide InterpretEntry;
    EntriesPointwise(table, entries, |entries|, held, version);
    i := LastOf(entries, |entries|, key);
  }
}
