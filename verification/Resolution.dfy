/**
 Which unresolved refs more tables can resolve (schema/interpret.go:49-58): exactly those that
 are gone once every table the held ones name is there, be it empty.
 */
module Resolution {
  import opened Growth
  import opened Interpretation
  import opened Results
  import opened Tables
  import opened Values

  /** Every ref in the type, at any depth, finds a table at the version. */
  predicate Finds(td: TypeDescriptor, held: Held, version: int) {
    && (td.kind == KIND_REF ==> RegKey(td.target, version) in held)
    && (td.elem.Some? ==> Finds(td.elem.value, held, version))
  }

  ghost predicate FindsAll(t: FieldTable, held: Held, version: int) {
    forall e :: e in t.entries ==> Finds(e.typ, held, version)
  }

  /** `full` grows `held` by empty tables, and by every one that `table` or a held table names. */
  ghost predicate Fills(table: FieldTable, held: Held, full: Held, version: int) {
    && Grown(held, full)
    && (forall k :: k in full && k !in held ==> full[k].entries == [])
    && FindsAll(table, full, version)
    && (forall k :: k in held ==> FindsAll(held[k], full, version))
  }

  /** The codes of the tables a type names. */
  function Named(td: TypeDescriptor): set<int> {
    (if td.kind == KIND_REF then {td.target} else {}) + (if td.elem.Some? then Named(td.elem.value) else {})
  }

  function NamedBy(t: FieldTable): set<int> {
    set e, code | e in t.entries && code in Named(e.typ) :: code
  }

  /** The held tables, and an empty one for every other code they or `table` name. */
  function Filled(table: FieldTable, held: Held, version: int): Held {
    var codes := NamedBy(table) + (set k, code | k in held && code in NamedBy(held[k]) :: code);
    map k | k in held.Keys + (set code | code in codes :: RegKey(code, version)) ::
      if k in held then held[k] else FieldTable(k.typ, k.version, [])
  }

  lemma {:induction false} NamedAreFound(td: TypeDescriptor, held: Held, version: int)
    requires forall code :: code in Named(td) ==> RegKey(code, version) in held
    ensures Finds(td, held, version)
    decreases td
  {
    if td.kind == KIND_REF {
      assert td.target in Named(td);
    }
    if td.elem.Some? {
      NamedAreFound(td.elem.value, held, version);
    }
  }

  lemma AllNamedAreFound(t: FieldTable, held: Held, version: int)
    requires forall code :: code in NamedBy(t) ==> RegKey(code, version) in held
    ensures FindsAll(t, held, version)
  {
    hide Named, Finds;
    forall e | e in t.entries ensures Finds(e.typ, held, version) {
      forall code | code in Named(e.typ) ensures RegKey(code, version) in held {
        assert code in NamedBy(t);
      }
      NamedAreFound(e.typ, held, version);
    }
  }

  lemma FilledFills(table: FieldTable, held: Held, version: int)
    ensures Fills(table, held, Filled(table, held, version), version)
  {
    hide NamedBy, FindsAll;
    var full := Filled(table, held, version);
    var codes := NamedBy(table) + (set k, code | k in held && code in NamedBy(held[k]) :: code);
    forall code | code in codes ensures RegKey(code, version) in full {
    }
    AllNamedAreFound(table, full, version);
    forall k | k in held ensures FindsAll(held[k], full, version) {
      forall code | code in NamedBy(held[k]) ensures RegKey(code, version) in full {
        assert code in codes;
      }
      AllNamedAreFound(held[k], full, version);
    }
  }

  // --------------------------- what some growth gets past, the filled registry gets past

  /** Where `some` is accepted `all` is at least not unresolved; where refused otherwise, refused otherwise. */
  ghost predicate PastToo<T>(some: Result<T, Reason>, all: Result<T, Reason>) {
    && (some.Ok? ==> all != Err(UnresolvedRef))
    && (some.Err? && some.error != UnresolvedRef ==> all.Err? && all.error != UnresolvedRef)
  }

  lemma {:induction false} MapPast(t: FieldTable, v: Value, held: Held, g: Held, full: Held, version: int)
    requires Grown(held, g) && Fills(t, held, full, version)
    ensures PastToo(InterpretMap(t, v, g, version), InterpretMap(t, v, full, version))
    decreases v, 0
  {
    hide InterpretEntries, Fills;
    if v.Map? {
      EntriesPast(t, v.entries, |v.entries|, held, g, full, version);
    }
  }

  lemma {:induction false} EntriesPast(
      t: FieldTable, entries: seq<MapEntry>, k: nat, held: Held, g: Held, full: Held, version: int)
    requires k <= |entries| && Grown(held, g) && Fills(t, held, full, version)
    ensures PastToo(InterpretEntries(t, entries, k, g, version), InterpretEntries(t, entries, k, full, version))
    decreases entries, k
  {
    hide InterpretValue, Finds;
    if k > 0 {
      EntriesPast(t, entries, k - 1, held, g, full, version);
      var e := entries[k - 1];
      assert e.value < e;
      if e.key.Int? && EntryByKey(t.entries, e.key.n).Some? {
        ValuePast(EntryByKey(t.entries, e.key.n).value.typ, e.value, t, held, g, full, version);
      }
    }
  }

  lemma {:induction false} ValuePast(
      td: TypeDescriptor, v: Value, t: FieldTable, held: Held, g: Held, full: Held, version: int)
    requires Grown(held, g) && Fills(t, held, full, version) && Finds(td, full, version)
    ensures PastToo(InterpretValue(td, v, g, version), InterpretValue(td, v, full, version))
    decreases v, 1
  {
    hide InterpretMap, InterpretItems, FindsAll;
    if td.kind == KIND_ARRAY && td.elem.Some? && v.Array? {
      ItemsPast(td.elem.value, v.items, |v.items|, t, held, g, full, version);
    } else if td.kind == KIND_REF {
      var k := RegKey(td.target, version);
      if k in held {
        MapPast(held[k], v, held, g, full, version);
      } else {
        EmptyTablePasses(full[k], v, full, version);
        if k in g {
          EmptyMapPasses(g[k], v, g, version);
        }
      }
    }
  }

  lemma {:induction false} ItemsPast(
      td: TypeDescriptor, items: seq<Value>, k: nat, t: FieldTable, held: Held, g: Held, full: Held, version: int)
    requires k <= |items| && Grown(held, g) && Fills(t, held, full, version) && Finds(td, full, version)
    ensures PastToo(InterpretItems(td, items, k, g, version), InterpretItems(td, items, k, full, version))
    decreases items, k
  {
    hide InterpretValue, Fills, Finds;
    if k > 0 {
      ItemsPast(td, items, k - 1, t, held, g, full, version);
      ValuePast(td, items[k - 1], t, held, g, full, version);
    }
  }

  /** An empty table accepts the empty map and refuses everything else for its structure. */
  lemma EmptyTablePasses(t: FieldTable, v: Value, held: Held, version: int)
    requires t.entries == []
    ensures InterpretMap(t, v, held, version) != Err(UnresolvedRef)
    ensures InterpretMap(t, v, held, version).Ok? <==> v == Map([])
  {
    if v.Map? && v.entries != [] {
      EntriesAllOk(t, v.entries, |v.entries|, held, version);
      assert InterpretEntry(t, v.entries[0], held, version).Err?;
      assert InterpretEntries(t, v.entries, 0, held, version) == Ok(map[]);
      EntryRefusalStands(t, v.entries, 1, |v.entries|, held, version);
    }
  }

  lemma EmptyMapPasses(t: FieldTable, v: Value, held: Held, version: int)
    ensures v == Map([]) ==> InterpretMap(t, v, held, version).Ok?
  {
  }

  /** Under no registry that holds all these tables is there another verdict than unresolved-ref. */
  ghost predicate Unresolvable(table: FieldTable, v: Value, held: Held) {
    forall g :: Grown(held, g) ==> Interpret(table, v, g) == Err(UnresolvedRef)
  }

  /**
   No tables resolve an artifact exactly when it is unresolved still with every named table
   supplied, empty.
   */
  lemma UnresolvableExactly(table: FieldTable, v: Value, held: Held)
    ensures Unresolvable(table, v, held)
       <==> Interpret(table, v, Filled(table, held, table.version)) == Err(UnresolvedRef)
  {
    hide InterpretMap, Filled;
    var full := Filled(table, held, table.version);
    FilledFills(table, held, table.version);
    if Interpret(table, v, full) == Err(UnresolvedRef) {
      forall g | Grown(held, g) ensures Interpret(table, v, g) == Err(UnresolvedRef) {
        MapPast(table, v, held, g, full, table.version);
      }
    }
  }

  /** A verdict is the same under every registry that grows, exactly if it is not unresolved or cannot be resolved. */
  lemma VerdictIsFinalExactly(table: FieldTable, v: Value, held: Held)
    ensures (forall g :: Grown(held, g) ==> Interpret(table, v, g) == Interpret(table, v, held))
       <==> Interpret(table, v, held) != Err(UnresolvedRef)
            || Interpret(table, v, Filled(table, held, table.version)) == Err(UnresolvedRef)
  {
    hide InterpretMap, Filled;
    UnresolvableExactly(table, v, held);
    FilledFills(table, held, table.version);
    assert Grown(held, held);
    if Interpret(table, v, held) != Err(UnresolvedRef) {
      forall g | Grown(held, g) ensures Interpret(table, v, g) == Interpret(table, v, held) {
        MapGrows(table, v, held, g, table.version);
      }
    }
  }
}
