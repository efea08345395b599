/**
 What each refusal of a field table means (schema/fieldtable.go), told from the map keys the
 artifact carries and the codes under them, whatever else it carries.
 */
module ParseVerdicts {
  import opened Conformance
  import opened FieldTables
  import opened Floor
  import opened FloorClosure
  import opened Interpretation
  import opened Results
  import opened Tables
  import opened Values

  /** The value under integer key `k`; of two, the later one, as the interpreter keeps it. */
  function FieldOf(v: Value, k: int): (r: Option<Value>)
    ensures r.Some? ==> r.value < v
  {
    if !v.Map? then None else LastUnder(v.entries, |v.entries|, k)
  }

  function LastUnder(entries: seq<MapEntry>, n: nat, k: int): (r: Option<Value>)
    requires n <= |entries|
    ensures r.Some? ==> exists i :: 0 <= i < n && entries[i].key == Int(k) && r.value == entries[i].value
  {
    if n == 0 then None
    else if entries[n - 1].key == Int(k) then Some(entries[n - 1].value)
    else LastUnder(entries, n - 1, k)
  }

  predicate Has(v: Value, k: int) {
    FieldOf(v, k).Some?
  }

  /** The field is absent, or an integer that fits a native int. */
  predicate CodeFits(v: Value, k: int) {
    Has(v, k) ==> FieldOf(v, k).value.Int? && -0x8000_0000_0000_0000 <= FieldOf(v, k).value.n < 0x8000_0000_0000_0000
  }

  function CodeAt(v: Value, k: int): int {
    if Has(v, k) && FieldOf(v, k).value.Int? then FieldOf(v, k).value.n else 0
  }

  function ItemsAt(v: Value, k: int): seq<Value> {
    if Has(v, k) && FieldOf(v, k).value.Array? then FieldOf(v, k).value.items else []
  }

  /** The one optional field of a descriptor that its kind owns: 1 of an array, 2 of a ref, 3 of a magnitude. */
  predicate Owns(kind: int, k: int) {
    (kind == 6 && k == 1) || (kind == 7 && k == 2) || ((kind == 4 || kind == 5) && k == 3)
  }

  /** A known kind lacks the field it owns or carries another's. */
  predicate BreaksItsRule(v: Value) {
    0 <= CodeAt(v, 0) <= 7 && exists k :: 1 <= k <= 3 && (Has(v, k) != Owns(CodeAt(v, 0), k))
  }

  /** Why a type descriptor is refused: in reading order its kind, its element type, its codes, and then its rule. */
  function TypeRefusal(v: Value): Option<Reason>
    decreases v
  {
    if !Has(v, 0) then Some(MalformedDescriptor)
    else if !CodeFits(v, 0) then Some(UnresolvedRef)
    else if Has(v, 1) && TypeRefusal(FieldOf(v, 1).value).Some? then TypeRefusal(FieldOf(v, 1).value)
    else if !CodeFits(v, 2) || !CodeFits(v, 3) then Some(UnresolvedRef)
    else if BreaksItsRule(v) then Some(MalformedDescriptor)
    else None
  }

  /** Why an entry is refused: a missing field, a code that does not fit, or its type. */
  function EntryRefusal(v: Value): Option<Reason> {
    if exists k :: 0 <= k <= 3 && !Has(v, k) then Some(MalformedEntry)
    else if !CodeFits(v, 0) || !CodeFits(v, 3) then Some(UnresolvedRef)
    else if Has(v, 2) then TypeRefusal(FieldOf(v, 2).value) else None
  }

  /** The refusal of the first refused one among the first `k` entries. */
  function EntriesRefusal(items: seq<Value>, k: nat): Option<Reason>
    requires k <= |items|
  {
    if k == 0 then None
    else if EntriesRefusal(items, k - 1).Some? then EntriesRefusal(items, k - 1)
    else EntryRefusal(items[k - 1])
  }

  /** Why a table is refused: a missing field, a code that does not fit, an entry, or its entries' keys. */
  function TableRefusal(v: Value): Option<Reason> {
    if exists k :: 0 <= k <= 2 && !Has(v, k) then Some(MalformedFieldTable)
    else if !CodeFits(v, 0) || !CodeFits(v, 1) then Some(UnresolvedRef)
    else if EntriesRefusal(ItemsAt(v, 2), |ItemsAt(v, 2)|).Some? then EntriesRefusal(ItemsAt(v, 2), |ItemsAt(v, 2)|)
    else if ItemsAt(v, 2) == [] || exists i :: 0 <= i < |ItemsAt(v, 2)| && CodeAt(ItemsAt(v, 2)[i], 0) != i then
      Some(MalformedFieldTable)
    else None
  }

  // ----------------------------------------------- fields of the instance and of the artifact

  lemma {:induction false} LastUnderIsLast(entries: seq<MapEntry>, n: nat, k: int)
    requires n <= |entries|
    ensures LastUnder(entries, n, k).Some? <==> exists i :: 0 <= i < n && entries[i].key == Int(k)
    ensures forall i :: LastWithKey(entries, i, n) && entries[i].key == Int(k)
                    ==> LastUnder(entries, n, k) == Some(entries[i].value)
  {
    if n > 0 && entries[n - 1].key != Int(k) {
      LastUnderIsLast(entries, n - 1, k);
    }
  }

  /** The instance has a field exactly where the artifact does, and it is the view of what is there. */
  lemma FieldView(table: FieldTable, v: Value, held: Held, k: int)
    requires InterpretMap(table, v, held, 1).Ok?
    ensures var inst := InterpretMap(table, v, held, 1).value;
            && (inst.Has(k) <==> Has(v, k))
            && (Has(v, k) ==>
                  && EntryByKey(table.entries, k).Some?
                  && InterpretValue(EntryByKey(table.entries, k).value.typ, FieldOf(v, k).value, held, 1)
                     == Ok(inst.fields[k]))
  {
    hide InterpretEntries, InterpretValue;
    EntriesPointwise(table, v.entries, |v.entries|, held, 1);
    LastUnderIsLast(v.entries, |v.entries|, k);
    if Has(v, k) {
      var i := LastOf(v.entries, |v.entries|, k);
    }
  }

  lemma IntView(w: Value, f: Field, held: Held)
    requires InterpretValue(Scalar(KIND_INT), w, held, 1) == Ok(f)
    ensures w.Int? && f == FInt(w.n)
  {
  }

  lemma RefOpens(target: int, w: Value, f: Field, held: Held)
    requires InterpretValue(Ref(target), w, held, 1) == Ok(f)
    ensures RegKey(target, 1) in held && f.FRef?
    ensures InterpretMap(held[RegKey(target, 1)], w, held, 1) == Ok(f.inst)
  {
  }

  lemma ArrayOpens(elem: TypeDescriptor, w: Value, f: Field, held: Held)
    requires InterpretValue(ArrayOf(elem), w, held, 1) == Ok(f)
    ensures w.Array? && f.FArray? && |f.items| == |w.items|
    ensures forall i :: 0 <= i < |w.items| ==> InterpretValue(elem, w.items[i], held, 1) == Ok(f.items[i])
  {
    hide InterpretItems;
    ItemsPointwise(elem, w.items, |w.items|, held, 1);
    assert InterpretItems(elem, w.items, |w.items|, held, 1).Ok?;
  }

  /** The code of an integer field, as the accessor and `ToInt` see it. */
  lemma CodeView(inst: Instance, v: Value, k: int)
    requires inst.Has(k) <==> Has(v, k)
    requires Has(v, k) ==> FieldOf(v, k).value.Int? && inst.fields[k] == FInt(FieldOf(v, k).value.n)
    ensures OptionalCode(inst, k) == if CodeFits(v, k) then Ok(CodeAt(v, k)) else Err(UnresolvedRef)
    ensures Has(v, k) ==> ToInt(inst.IntAt(k)) == if CodeFits(v, k) then Ok(CodeAt(v, k)) else Err(UnresolvedRef)
  {
    hide FieldOf;
  }

  // ------------------------------------------------------------------ the verdicts

  lemma {:induction false} TypeVerdict(v: Value, held: Held)
    requires HoldsFloor(held) && InterpretMap(TypeDescriptorTable(), v, held, 1).Ok?
    ensures var r := ProjectDescriptor(InterpretMap(TypeDescriptorTable(), v, held, 1).value);
            match TypeRefusal(v)
            case Some(e) => r == Err(e)
            case None => r.Ok?
    decreases v
  {
    hide InterpretMap, InterpretValue, FieldOf, HoldsFloor, TypeDescriptorTable, EntryByKey, BreaksItsRule,
         FieldsMatchKind, OptionalCode, ToInt;
    var inst := InterpretMap(TypeDescriptorTable(), v, held, 1).value;
    FloorTypes();
    FloorIsHeld(held);
    forall k | k in {0, 2, 3}
      ensures OptionalCode(inst, k) == if CodeFits(v, k) then Ok(CodeAt(v, k)) else Err(UnresolvedRef)
      ensures Has(v, k) ==> ToInt(inst.IntAt(k)) == if CodeFits(v, k) then Ok(CodeAt(v, k)) else Err(UnresolvedRef)
      ensures inst.Has(k) <==> Has(v, k)
    {
      FieldView(TypeDescriptorTable(), v, held, k);
      if Has(v, k) {
        IntView(FieldOf(v, k).value, inst.fields[k], held);
      }
      CodeView(inst, v, k);
    }
    FieldView(TypeDescriptorTable(), v, held, 1);
    if Has(v, 1) {
      RefOpens(ARTIFACT_TYPE_DESCRIPTOR, FieldOf(v, 1).value, inst.fields[1], held);
      FieldIsSmaller(v, 1);
      TypeVerdict(FieldOf(v, 1).value, held);
    }
    RuleView(v, inst);
  }

  lemma FieldIsSmaller(v: Value, k: int)
    requires Has(v, k)
    ensures FieldOf(v, k).value < v
  {
  }

  /** The switch on the kind is the ownership rule. */
  lemma RuleView(v: Value, inst: Instance)
    requires forall k :: 1 <= k <= 3 ==> (inst.Has(k) <==> Has(v, k))
    ensures FieldsMatchKind(CodeAt(v, 0), inst.Has(1), inst.Has(2), inst.Has(3)) <==> !BreaksItsRule(v)
  {
    hide FieldOf;
    var kind := CodeAt(v, 0);
    assert BreaksItsRule(v)
      <==> 0 <= kind <= 7 && ((Has(v, 1) != Owns(kind, 1)) || (Has(v, 2) != Owns(kind, 2))
                               || (Has(v, 3) != Owns(kind, 3)));
  }

  lemma EntryVerdict(v: Value, held: Held)
    requires HoldsFloor(held) && InterpretMap(EntryTable(), v, held, 1).Ok?
    ensures var r := ProjectEntry(InterpretMap(EntryTable(), v, held, 1).value);
            match EntryRefusal(v)
            case Some(e) => r == Err(e)
            case None => r.Ok? && r.value.key == CodeAt(v, 0)
  {
    hide InterpretMap, InterpretValue, FieldOf, HoldsFloor, EntryTable, TypeDescriptorTable, EntryByKey, TypeRefusal,
         ProjectDescriptor, ToInt;
    var inst := InterpretMap(EntryTable(), v, held, 1).value;
    FloorTypes();
    FloorIsHeld(held);
    forall k | 0 <= k <= 3 ensures inst.Has(k) <==> Has(v, k) {
      FieldView(EntryTable(), v, held, k);
    }
    forall k | k in {0, 3}
      ensures Has(v, k) ==> ToInt(inst.IntAt(k)) == if CodeFits(v, k) then Ok(CodeAt(v, k)) else Err(UnresolvedRef)
    {
      FieldView(EntryTable(), v, held, k);
      if Has(v, k) {
        IntView(FieldOf(v, k).value, inst.fields[k], held);
      }
      CodeView(inst, v, k);
    }
    FieldView(EntryTable(), v, held, 2);
    if Has(v, 2) {
      RefOpens(ARTIFACT_TYPE_DESCRIPTOR, FieldOf(v, 2).value, inst.fields[2], held);
      TypeVerdict(FieldOf(v, 2).value, held);
    }
  }

  lemma {:induction false} EntriesVerdict(items: seq<Value>, raw: seq<Field>, k: nat, held: Held)
    requires HoldsFloor(held) && k <= |items| == |raw|
    requires forall i :: 0 <= i < |items| ==>
               raw[i].FRef? && InterpretMap(EntryTable(), items[i], held, 1) == Ok(raw[i].inst)
    ensures match EntriesRefusal(items, k)
            case Some(e) => ProjectEntries(raw, k) == Err(e)
            case None => ProjectEntries(raw, k).Ok?
                         && forall i :: 0 <= i < k ==> ProjectEntries(raw, k).value[i].key == CodeAt(items[i], 0)
  {
    hide InterpretMap, HoldsFloor, EntryTable, EntryRefusal, ProjectEntry, CodeAt;
    if k > 0 {
      EntriesVerdict(items, raw, k - 1, held);
      EntryVerdict(items[k - 1], held);
    }
  }

  lemma TableVerdict(v: Value, held: Held)
    requires HoldsFloor(held) && InterpretMap(MetaTable(), v, held, 1).Ok?
    ensures var r := ProjectTable(InterpretMap(MetaTable(), v, held, 1).value);
            match TableRefusal(v)
            case Some(e) => r == Err(e)
            case None => r.Ok?
  {
    hide InterpretMap, FieldOf, HoldsFloor, MetaTable, EntriesRefusal, ProjectEntries, ToInt, ItemsAt;
    var inst := InterpretMap(MetaTable(), v, held, 1).value;
    TableCodes(v, inst, held, 0);
    TableCodes(v, inst, held, 1);
    TableItems(v, inst, held);
  }

  /** The table's two codes. */
  lemma TableCodes(v: Value, inst: Instance, held: Held, k: int)
    requires HoldsFloor(held) && InterpretMap(MetaTable(), v, held, 1) == Ok(inst)
    requires k == 0 || k == 1
    ensures inst.Has(k) <==> Has(v, k)
    ensures Has(v, k) ==> ToInt(inst.IntAt(k)) == if CodeFits(v, k) then Ok(CodeAt(v, k)) else Err(UnresolvedRef)
  {
    hide InterpretMap, InterpretValue, FieldOf, HoldsFloor, MetaTable, EntryByKey, ToInt;
    FloorTypes();
    FieldView(MetaTable(), v, held, k);
    if Has(v, k) {
      IntView(FieldOf(v, k).value, inst.fields[k], held);
    }
    CodeView(inst, v, k);
  }

  /** The table's entries. */
  lemma TableItems(v: Value, inst: Instance, held: Held)
    requires HoldsFloor(held) && InterpretMap(MetaTable(), v, held, 1) == Ok(inst)
    ensures inst.Has(2) <==> Has(v, 2)
    ensures Has(v, 2) ==> inst.fields[2].FArray? && |inst.fields[2].items| == |ItemsAt(v, 2)|
    ensures Has(v, 2) ==> var items := ItemsAt(v, 2);
                          match EntriesRefusal(items, |items|)
                          case Some(e) => ProjectEntries(inst.fields[2].items, |items|) == Err(e)
                          case None => ProjectEntries(inst.fields[2].items, |items|).Ok?
                                       && forall i :: 0 <= i < |items| ==>
                                            ProjectEntries(inst.fields[2].items, |items|).value[i].key
                                            == CodeAt(items[i], 0)
  {
    hide InterpretMap, InterpretValue, FieldOf, HoldsFloor, MetaTable, EntryTable, EntryByKey, EntriesRefusal,
         ProjectEntries;
    FloorTypes();
    FloorIsHeld(held);
    FieldView(MetaTable(), v, held, 2);
    if Has(v, 2) {
      var items, raw := FieldOf(v, 2).value, inst.fields[2];
      ArrayOpens(Ref(ARTIFACT_ENTRY), items, raw, held);
      forall i | 0 <= i < |items.items|
        ensures raw.items[i].FRef? && InterpretMap(EntryTable(), items.items[i], held, 1) == Ok(raw.items[i].inst)
      {
        RefOpens(ARTIFACT_ENTRY, items.items[i], raw.items[i], held);
      }
      EntriesVerdict(items.items, raw.items, |raw.items|, held);
    }
  }

  /**
   A field table is refused with a reason exactly when the meta-table refuses the artifact with
   it, or accepts it and the fields it carries are refused with it; and read when neither does.
   */
  lemma ParseVerdict(v: Value, held: Held)
    requires HoldsFloor(held)
    ensures forall e :: ParseFieldTable(v, held) == Err(e)
                   <==> || Interpret(MetaTable(), v, held) == Err(e)
                        || (Interpret(MetaTable(), v, held).Ok? && TableRefusal(v) == Some(e))
  {
    hide InterpretMap, HoldsFloor, MetaTable, TableRefusal, ProjectTable;
    MetaVersion();
    if Interpret(MetaTable(), v, held).Ok? {
      TableVerdict(v, held);
    }
  }
}
