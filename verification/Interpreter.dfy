/** The interpreter as the repository writes it: loops filling a field map and an element list. */
module InterpreterMachine {
  import opened Interpretation
  import opened Magnitudes
  import opened Results
  import opened Tables
  import opened Values

  method InterpretArtifact(table: FieldTable, v: Value, reg: Registry) returns (r: Result<Instance, Reason>)
    ensures r == Interpret(table, v, reg.tables)
  {
    r := MapView(table, v, reg, table.version);
  }

  method MapView(table: FieldTable, v: Value, reg: Registry, version: int) returns (r: Result<Instance, Reason>)
    ensures r == InterpretMap(table, v, reg.tables, version)
    decreases v, 0
  {
    if !v.Map? {
      return Err(TypeMismatch);
    }
    var fields: map<int, Field> := map[];
    var i := 0;
    while i < |v.entries|
      invariant 0 <= i <= |v.entries|
      invariant InterpretEntries(table, v.entries, i, reg.tables, version) == Ok(fields)
    {
      var ent := v.entries[i];
      assert ent.value < ent;
      var val := EntryView(table, ent, reg, version);
      if val.Err? {
        EntryRefusalStands(table, v.entries, i + 1, |v.entries|, reg.tables, version);
        return Err(val.error);
      }
      fields := fields[ent.key.n := val.value];
      i := i + 1;
    }
    r := Ok(Instance(table, version, fields));
  }

  /** One turn of the map loop: the key's rules, then the field's type. */
  method EntryView(table: FieldTable, ent: MapEntry, reg: Registry, version: int) returns (r: Result<Field, Reason>)
    ensures r == InterpretEntry(table, ent, reg.tables, version)
    decreases ent
  {
    if !ent.key.Int? {
      return Err(BadFieldKey);
    }
    if !IsInt64(ent.key.n) {
      return Err(UnknownField);
    }
    var field := FindEntry(table, ent.key.n);
    if field.None? {
      return Err(UnknownField);
    }
    r := ValueView(field.value.typ, ent.value, reg, version);
  }

  method ValueView(td: TypeDescriptor, v: Value, reg: Registry, version: int) returns (r: Result<Field, Reason>)
    ensures r == InterpretValue(td, v, reg.tables, version)
    decreases v, 1
  {
    match td.kind {
      case 0 =>
        r := if v.Int? then Ok(FInt(v.n)) else Err(TypeMismatch);
      case 1 =>
        r := if v.Bytes? then Ok(FBytes(v.bytes)) else Err(TypeMismatch);
      case 2 =>
        r := if v.Text? then Ok(FText(v.text)) else Err(TypeMismatch);
      case 3 =>
        r := if v.Bool? then Ok(FBool(v.flag)) else Err(TypeMismatch);
      case 4 =>
        var pair := TwoInts(v);
        if pair.Err? {
          return Err(pair.error);
        }
        var bad := CheckDecimal(pair.value.0, pair.value.1);
        r := if bad.Some? then Err(NonCanonicalDecimal) else Ok(FDecimal(pair.value.0, pair.value.1));
      case 5 =>
        var pair := TwoInts(v);
        if pair.Err? {
          return Err(pair.error);
        }
        var bad := CheckRational(pair.value.0, pair.value.1);
        r := if bad.Some? then Err(NonCanonicalRational) else Ok(FRational(pair.value.0, pair.value.1));
      case 6 =>
        if !v.Array? {
          return Err(TypeMismatch);
        }
        if td.elem.None? {
          return Err(MalformedDescriptor);
        }
        r := ItemsView(td.elem.value, v.items, reg, version);
      case 7 =>
        var child := reg.Lookup(td.target, version);
        if child.None? {
          return Err(UnresolvedRef);
        }
        var inst := MapView(child.value, v, reg, version);
        r := if inst.Err? then Err(inst.error) else Ok(FRef(inst.value));
      case _ =>
        r := Err(UnresolvedRef);
    }
  }

  method ItemsView(td: TypeDescriptor, items: seq<Value>, reg: Registry, version: int)
    returns (r: Result<Field, Reason>)
    ensures r == match InterpretItems(td, items, |items|, reg.tables, version)
                 case Ok(fields) => Ok(FArray(fields))
                 case Err(e) => Err(e)
    decreases items
  {
    var out: seq<Field> := [];
    var i := 0;
    while i < |items|
      invariant 0 <= i <= |items|
      invariant InterpretItems(td, items, i, reg.tables, version) == Ok(out)
    {
      var el := ValueView(td, items[i], reg, version);
      if el.Err? {
        ItemRefusalStands(td, items, i + 1, |items|, reg.tables, version);
        return Err(el.error);
      }
      out := out + [el.value];
      i := i + 1;
    }
    r := Ok(FArray(out));
  }

  /** The acting party's presence gate: refuses exactly when one of its keys is absent. */
  method Require(inst: Instance, keys: seq<int>) returns (missing: Option<Reason>)
    ensures missing == if forall k :: k in keys ==> inst.Has(k) then None else Some(MissingField)
  {
    var i := 0;
    while i < |keys|
      invariant 0 <= i <= |keys|
      invariant forall j :: 0 <= j < i ==> inst.Has(keys[j])
    {
      if !inst.Has(keys[i]) {
        assert keys[i] in keys;
        return Some(MissingField);
      }
      i := i + 1;
    }
    missing := None;
  }
}
