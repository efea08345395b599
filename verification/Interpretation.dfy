/**
 The function the interpreter computes: the typed view of a structural value under a field
 table, with refs resolved at the root's version (schema/interpret.go). Recursion is on the
 value, not on the tables, so tables may refer to themselves and to each other.
 */
module Interpretation {
  import opened ByteOrder
  import opened Magnitudes
  import opened Results
  import opened Tables
  import opened Values

  datatype Reason =
    | UnknownField
    | BadFieldKey
    | TypeMismatch
    | BadMagnitude
    | NonCanonicalDecimal
    | NonCanonicalRational
    | MalformedDescriptor
    | MalformedFieldTable
    | MalformedEntry
    | UnresolvedRef
    | MissingField

  /** A field's value; its constructor follows the field's type descriptor. */
  datatype Field =
    | FInt(n: int)
    | FBytes(bytes: seq<Byte>)
    | FText(text: seq<Byte>)
    | FBool(flag: bool)
    | FDecimal(scale: int, mantissa: int)
    | FRational(num: int, den: int)
    | FArray(items: seq<Field>)
    | FRef(inst: Instance)

  datatype Instance = Instance(table: FieldTable, version: int, fields: map<int, Field>) {

    predicate Has(key: int) {
      key in fields
    }

    function IntAt(key: int): Option<int> {
      if key in fields && fields[key].FInt? then Some(fields[key].n) else None
    }

    function TextAt(key: int): Option<seq<Byte>> {
      if key in fields && fields[key].FText? then Some(fields[key].text) else None
    }

    function ArrayAt(key: int): Option<seq<Field>> {
      if key in fields && fields[key].FArray? then Some(fields[key].items) else None
    }

    function RefAt(key: int): Option<Instance> {
      if key in fields && fields[key].FRef? then Some(fields[key].inst) else None
    }
  }

  predicate IsInt64(n: int) {
    -INT_LIMIT <= n < INT_LIMIT
  }

  function Interpret(table: FieldTable, v: Value, held: Held): Result<Instance, Reason> {
    InterpretMap(table, v, held, table.version)
  }

  function InterpretMap(table: FieldTable, v: Value, held: Held, version: int): Result<Instance, Reason>
    decreases v, 0
  {
    if !v.Map? then Err(TypeMismatch)
    else
      var fields :- InterpretEntries(table, v.entries, |v.entries|, held, version);
      Ok(Instance(table, version, fields))
  }

  /** The first `k` entries; a later entry overwrites an earlier one with its key. */
  function InterpretEntries(table: FieldTable, entries: seq<MapEntry>, k: nat, held: Held, version: int)
    : (r: Result<map<int, Field>, Reason>)
    requires k <= |entries|
    ensures r.Ok? ==> forall i :: 0 <= i < k ==> entries[i].key.Int?
    decreases entries, k
  {
    if k == 0 then Ok(map[])
    else
      var fields :- InterpretEntries(table, entries, k - 1, held, version);
      var f :- InterpretEntry(table, entries[k - 1], held, version);
      Ok(fields[entries[k - 1].key.n := f])
  }

  function InterpretEntry(table: FieldTable, e: MapEntry, held: Held, version: int): (r: Result<Field, Reason>)
    ensures r.Ok? ==> e.key.Int?
    decreases e
  {
    if !e.key.Int? then Err(BadFieldKey)
    else if !IsInt64(e.key.n) then Err(UnknownField)
    else
      var field := EntryByKey(table.entries, e.key.n);
      if field.None? then Err(UnknownField)
      else InterpretValue(field.value.typ, e.value, held, version)
  }

  function InterpretValue(td: TypeDescriptor, v: Value, held: Held, version: int): Result<Field, Reason>
    decreases v, 1
  {
    if td.kind == KIND_INT then
      if v.Int? then Ok(FInt(v.n)) else Err(TypeMismatch)
    else if td.kind == KIND_BYTES then
      if v.Bytes? then Ok(FBytes(v.bytes)) else Err(TypeMismatch)
    else if td.kind == KIND_TEXT then
      if v.Text? then Ok(FText(v.text)) else Err(TypeMismatch)
    else if td.kind == KIND_BOOL then
      if v.Bool? then Ok(FBool(v.flag)) else Err(TypeMismatch)
    else if td.kind == KIND_DECIMAL then
      var pair :- TwoInts(v);
      if CheckDecimal(pair.0, pair.1).Some? then Err(NonCanonicalDecimal) else Ok(FDecimal(pair.0, pair.1))
    else if td.kind == KIND_RATIONAL then
      var pair :- TwoInts(v);
      if CheckRational(pair.0, pair.1).Some? then Err(NonCanonicalRational) else Ok(FRational(pair.0, pair.1))
    else if td.kind == KIND_ARRAY then
      if !v.Array? then Err(TypeMismatch)
      else if td.elem.None? then Err(MalformedDescriptor)
      else
        var items :- InterpretItems(td.elem.value, v.items, |v.items|, held, version);
        Ok(FArray(items))
    else if td.kind == KIND_REF then
      var child := LookupTable(held, td.target, version);
      if child.None? then Err(UnresolvedRef)
      else
        var inst :- InterpretMap(child.value, v, held, version);
        Ok(FRef(inst))
    else Err(UnresolvedRef)
  }

  function InterpretItems(td: TypeDescriptor, items: seq<Value>, k: nat, held: Held, version: int)
    : (r: Result<seq<Field>, Reason>)
    requires k <= |items|
    ensures r.Ok? ==> |r.value| == k
    decreases items, k
  {
    if k == 0 then Ok([])
    else
      var front :- InterpretItems(td, items, k - 1, held, version);
      var last :- InterpretValue(td, items[k - 1], held, version);
      Ok(front + [last])
  }

  /** The integer pair of a magnitude's wire shape. */
  function TwoInts(v: Value): Result<(int, int), Reason> {
    if !v.Array? || |v.items| != 2 || !v.items[0].Int? || !v.items[1].Int? then Err(BadMagnitude)
    else Ok((v.items[0].n, v.items[1].n))
  }

  lemma {:induction false} EntryRefusalStands(
      table: FieldTable, entries: seq<MapEntry>, j: nat, k: nat, held: Held, version: int)
    requires j <= k <= |entries| && InterpretEntries(table, entries, j, held, version).Err?
    ensures InterpretEntries(table, entries, k, held, version) == InterpretEntries(table, entries, j, held, version)
    decreases k - j
  {
    if j < k {
      EntryRefusalStands(table, entries, j, k - 1, held, version);
    }
  }

  lemma {:induction false} ItemRefusalStands(
      td: TypeDescriptor, items: seq<Value>, j: nat, k: nat, held: Held, version: int)
    requires j <= k <= |items| && InterpretItems(td, items, j, held, version).Err?
    ensures InterpretItems(td, items, k, held, version) == InterpretItems(td, items, j, held, version)
    decreases k - j
  {
    if j < k {
      ItemRefusalStands(td, items, j, k - 1, held, version);
    }
  }

  // ---------------------------------------------------- pointwise views of loops

  lemma {:induction false} ItemsPointwise(
      td: TypeDescriptor, items: seq<Value>, k: nat, held: Held, version: int)
    requires k <= |items|
    ensures InterpretItems(td, items, k, held, version).Ok?
       <==> forall i :: 0 <= i < k ==> InterpretValue(td, items[i], held, version).Ok?
    ensures InterpretItems(td, items, k, held, version).Ok?
        ==> forall i :: 0 <= i < k ==>
              InterpretValue(td, items[i], held, version) == Ok(InterpretItems(td, items, k, held, version).value[i])
  {
    hide InterpretValue;
    if k > 0 {
      ItemsPointwise(td, items, k - 1, held, version);
    }
  }

  /** No later one of the first `k` entries has the key of entry `i`. */
  ghost predicate LastWithKey(entries: seq<MapEntry>, i: int, k: nat) {
    && 0 <= i < k <= |entries|
    && forall j :: i < j < k ==> entries[j].key != entries[i].key
  }

  lemma {:induction false} EntriesAllOk(
      table: FieldTable, entries: seq<MapEntry>, k: nat, held: Held, version: int)
    requires k <= |entries|
    ensures InterpretEntries(table, entries, k, held, version).Ok?
       <==> forall i :: 0 <= i < k ==> InterpretEntry(table, entries[i], held, version).Ok?
  {
    hide InterpretEntry;
    if k > 0 {
      EntriesAllOk(table, entries, k - 1, held, version);
    }
  }

  lemma {:induction false} EntriesKeys(
      table: FieldTable, entries: seq<MapEntry>, k: nat, held: Held, version: int)
    requires k <= |entries| && InterpretEntries(table, entries, k, held, version).Ok?
    ensures forall key :: key in InterpretEntries(table, entries, k, held, version).value
                     <==> exists i :: 0 <= i < k && entries[i].key == Int(key)
  {
    hide InterpretEntry;
    if k > 0 {
      EntriesKeys(table, entries, k - 1, held, version);
      var front := InterpretEntries(table, entries, k - 1, held, version).value;
      var fields := InterpretEntries(table, entries, k, held, version).value;
      forall key ensures key in fields <==> exists i :: 0 <= i < k && entries[i].key == Int(key) {
        if key in fields && key != entries[k - 1].key.n {
          assert key in front;
        }
        if i :| 0 <= i < k && entries[i].key == Int(key) {
          assert i < k - 1 ==> key in front;
        }
      }
    }
  }

  lemma {:induction false} EntriesLastWins(
      table: FieldTable, entries: seq<MapEntry>, k: nat, held: Held, version: int, i: int)
    requires k <= |entries| && InterpretEntries(table, entries, k, held, version).Ok?
    requires LastWithKey(entries, i, k)
    ensures var fields := InterpretEntries(table, entries, k, held, version).value;
            && entries[i].key.n in fields
            && InterpretEntry(table, entries[i], held, version) == Ok(fields[entries[i].key.n])
    decreases k
  {
    hide InterpretEntry;
    if i < k - 1 {
      assert LastWithKey(entries, i, k - 1);
      EntriesLastWins(table, entries, k - 1, held, version, i);
    }
  }

  /** The map a successful run builds: the keys it saw, each with the last entry under it. */
  lemma EntriesPointwise(table: FieldTable, entries: seq<MapEntry>, k: nat, held: Held, version: int)
    requires k <= |entries|
    ensures InterpretEntries(table, entries, k, held, version).Ok?
       <==> forall i :: 0 <= i < k ==> InterpretEntry(table, entries[i], held, version).Ok?
    ensures var r := InterpretEntries(table, entries, k, held, version);
            r.Ok? ==>
              && (forall key :: key in r.value <==> exists i :: 0 <= i < k && entries[i].key == Int(key))
              && (forall i :: LastWithKey(entries, i, k) ==>
                    entries[i].key.n in r.value
                    && InterpretEntry(table, entries[i], held, version) == Ok(r.value[entries[i].key.n]))
  {
    hide InterpretEntry, InterpretEntries;
    EntriesAllOk(table, entries, k, held, version);
    var r := InterpretEntries(table, entries, k, held, version);
    if r.Ok? {
      EntriesKeys(table, entries, k, held, version);
      forall i | LastWithKey(entries, i, k)
        ensures entries[i].key.n in r.value
        ensures InterpretEntry(table, entries[i], held, version) == Ok(r.value[entries[i].key.n])
      {
        EntriesLastWins(table, entries, k, held, version, i);
      }
    }
  }
}
