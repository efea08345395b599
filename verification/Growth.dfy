/**
 Registry growth (schema/interpret.go:20-58): adding tables can only resolve what was
 unresolved; every artifact-determined verdict stays what it was.
 */
module Growth {
  import opened Interpretation
  import opened Results
  import opened Tables
  import opened Values

  lemma {:induction false} MapGrows(table: FieldTable, v: Value, a: Held, b: Held, version: int)
    requires Grown(a, b) && InterpretMap(table, v, a, version) != Err(UnresolvedRef)
    ensures InterpretMap(table, v, b, version) == InterpretMap(table, v, a, version)
    decreases v, 0
  {
    hide InterpretEntries;
    if v.Map? {
      EntriesGrow(table, v.entries, |v.entries|, a, b, version);
    }
  }

  lemma {:induction false} EntriesGrow(
      table: FieldTable, entries: seq<MapEntry>, k: nat, a: Held, b: Held, version: int)
    requires k <= |entries| && Grown(a, b)
    requires InterpretEntries(table, entries, k, a, version) != Err(UnresolvedRef)
    ensures InterpretEntries(table, entries, k, b, version) == InterpretEntries(table, entries, k, a, version)
    decreases entries, k
  {
    hide InterpretValue;
    if k > 0 {
      EntriesGrow(table, entries, k - 1, a, b, version);
      var e := entries[k - 1];
      assert e.value < e;
      if e.key.Int? && EntryByKey(table.entries, e.key.n).Some? && IsInt64(e.key.n)
         && InterpretEntries(table, entries, k - 1, a, version).Ok? {
        ValueGrows(EntryByKey(table.entries, e.key.n).value.typ, e.value, a, b, version);
      }
    }
  }

  lemma {:induction false} ValueGrows(td: TypeDescriptor, v: Value, a: Held, b: Held, version: int)
    requires Grown(a, b) && InterpretValue(td, v, a, version) != Err(UnresolvedRef)
    ensures InterpretValue(td, v, b, version) == InterpretValue(td, v, a, version)
    decreases v, 1
  {
    hide InterpretMap, InterpretItems;
    if td.kind == KIND_ARRAY {
      if v.Array? && td.elem.Some? {
        ItemsGrow(td.elem.value, v.items, |v.items|, a, b, version);
      }
    } else if td.kind == KIND_REF {
      MapGrows(a[RegKey(td.target, version)], v, a, b, version);
    }
  }

  lemma {:induction false} ItemsGrow(
      td: TypeDescriptor, items: seq<Value>, k: nat, a: Held, b: Held, version: int)
    requires k <= |items| && Grown(a, b)
    requires InterpretItems(td, items, k, a, version) != Err(UnresolvedRef)
    ensures InterpretItems(td, items, k, b, version) == InterpretItems(td, items, k, a, version)
    decreases items, k
  {
    hide InterpretValue;
    if k > 0 {
      ItemsGrow(td, items, k - 1, a, b, version);
      if InterpretItems(td, items, k - 1, a, version).Ok? {
        ValueGrows(td, items[k - 1], a, b, version);
      }
    }
  }

  /**
   After any successful additions, an instance stays the same instance, and a refusal other
   than unresolved-ref the same refusal.
   */
  lemma GrowthKeepsVerdicts(table: FieldTable, v: Value, held: Held, ts: seq<FieldTable>)
    requires AddAll(held, ts).Some?
    requires Interpret(table, v, held) != Err(UnresolvedRef)
    ensures Interpret(table, v, AddAll(held, ts).value) == Interpret(table, v, held)
  {
    AddingOnlyGrows(held, ts);
    MapGrows(table, v, held, AddAll(held, ts).value, table.version);
  }

  /** Registries that hold the same table wherever both hold one. */
  ghost predicate Compatible(a: Held, b: Held) {
    forall k :: k in a && k in b ==> a[k] == b[k]
  }

  /** The verdicts are the same, unless one of them is unresolved-ref. */
  ghost predicate SameVerdict(table: FieldTable, v: Value, a: Held, b: Held) {
    || Interpret(table, v, a) == Err(UnresolvedRef)
    || Interpret(table, v, b) == Err(UnresolvedRef)
    || Interpret(table, v, a) == Interpret(table, v, b)
  }

  lemma CompatibleNodesAgree(table: FieldTable, v: Value, a: Held, b: Held)
    requires Compatible(a, b)
    ensures SameVerdict(table, v, a, b)
  {
    hide InterpretMap;
    if Interpret(table, v, a) != Err(UnresolvedRef) && Interpret(table, v, b) != Err(UnresolvedRef) {
      var both := a + b;
      assert Grown(a, both) && Grown(b, both);
      MapGrows(table, v, a, both, table.version);
      MapGrows(table, v, b, both, table.version);
    }
  }

  /** A table whose one field is a ref to `k`, at the version of `k`. */
  function RefTo(k: RegKey): FieldTable {
    FieldTable(0, k.version, [Entry(0, [], TypeDescriptor(KIND_REF, None, k.typ, 0), 0)])
  }

  /** An instance of `RefTo(k)` over an empty map shows which table is held at `k`. */
  lemma EmptyRefShowsTable(k: RegKey, held: Held)
    requires k in held
    ensures Interpret(RefTo(k), Map([MapEntry(Int(0), Map([]))]), held)
         == Ok(Instance(RefTo(k), k.version, map[0 := FRef(Instance(held[k], k.version, map[]))]))
  {
    var ent := MapEntry(Int(0), Map([]));
    assert EntryByKey(RefTo(k).entries, 0) == Some(RefTo(k).entries[0]);
    assert InterpretEntries(held[k], [], 0, held, k.version) == Ok(map[]);
    assert InterpretEntry(RefTo(k), ent, held, k.version) == Ok(FRef(Instance(held[k], k.version, map[])));
    assert InterpretEntries(RefTo(k), [ent], 0, held, k.version) == Ok(map[]);
    assert InterpretEntries(RefTo(k), [ent], 1, held, k.version)
        == Ok(map[0 := FRef(Instance(held[k], k.version, map[]))]);
  }

  /**
   Two nodes agree on every table and value, but for what one of them cannot resolve, exactly
   when they hold the same table wherever both hold one.
   */
  lemma NodesAgree(a: Held, b: Held)
    ensures (forall table, v :: SameVerdict(table, v, a, b)) <==> Compatible(a, b)
  {
    hide SameVerdict, Interpret;
    if Compatible(a, b) {
      forall table, v ensures SameVerdict(table, v, a, b) {
        CompatibleNodesAgree(table, v, a, b);
      }
    }
    if forall table, v :: SameVerdict(table, v, a, b) {
      forall k | k in a && k in b ensures a[k] == b[k] {
        SameTableShown(k, a, b);
      }
    }
  }

  lemma SameTableShown(k: RegKey, a: Held, b: Held)
    requires k in a && k in b
    requires SameVerdict(RefTo(k), Map([MapEntry(Int(0), Map([]))]), a, b)
    ensures a[k] == b[k]
  {
    hide Interpret;
    EmptyRefShowsTable(k, a);
    EmptyRefShowsTable(k, b);
    var fa, fb := FRef(Instance(a[k], k.version, map[])), FRef(Instance(b[k], k.version, map[]));
    assert map[0 := fa][0] == map[0 := fb][0];
  }

  /** Conflicting tables can set even an acceptance against an artifact-determined refusal. */
  lemma IncompatibleNodesMayDisagree()
    ensures var t := FieldTable(1025, 1, [Entry(0, [], TypeDescriptor(KIND_REF, None, 1024, 0), 0)]);
            var v := Map([MapEntry(Int(0), Map([MapEntry(Int(0), Bool(true))]))]);
            var asBool := FieldTable(1024, 1, [Entry(0, [], TypeDescriptor(KIND_BOOL, None, 0, 0), 0)]);
            var asInt := FieldTable(1024, 1, [Entry(0, [], TypeDescriptor(KIND_INT, None, 0, 0), 0)]);
            && Interpret(t, v, map[KeyOf(asBool) := asBool]).Ok?
            && Interpret(t, v, map[KeyOf(asInt) := asInt]) == Err(TypeMismatch)
  {
  }
}
