/** The way back for instances: written to bytes and read under its table, an instance is itself again. */
module InstanceInverse {
  import opened ByteOrder
  import opened Conformance
  import opened Decoding
  import opened Encoding
  import opened Interpretation
  import opened Lossless
  import opened Magnitudes
  import opened NormalForm
  import opened Results
  import opened RoundTrip
  import opened Tables
  import opened Values

  /** A typed field is what interpretation makes of its erased value in normal form. */
  lemma {:induction false} FieldReadsBack(td: TypeDescriptor, f: Field, held: Held, version: int)
    requires Typed(td, f, held, version)
    ensures InterpretValue(td, Norm(EraseField(f)), held, version) == Ok(f)
    decreases f
  {
    hide InterpretMap, InterpretItems, EraseInstance, TypedInstance, SortEntries, CheckDecimal, CheckRational;
    match f {
      case FArray(items) =>
        ItemsReadBack(td, f, held, version);
      case FRef(inst) =>
        InstanceReadsBack(held[RegKey(td.target, version)], inst, held, version);
      case _ =>
    }
  }

  lemma {:induction false} ItemsReadBack(td: TypeDescriptor, f: Field, held: Held, version: int)
    requires f.FArray? && Typed(td, f, held, version)
    ensures InterpretValue(td, Norm(EraseField(f)), held, version) == Ok(f)
    decreases f, 0
  {
    hide InterpretItems, EraseInstance, TypedInstance, SortEntries;
    NormUnfolds(EraseField(f));
    var elem, values := td.elem.value, NormItems(EraseField(f).items);
    forall i | 0 <= i < |values| ensures InterpretValue(elem, values[i], held, version) == Ok(f.items[i]) {
      FieldReadsBack(elem, f.items[i], held, version);
    }
    ItemsPointwise(elem, values, |values|, held, version);
    assert InterpretItems(elem, values, |values|, held, version).value == f.items;
  }

  /** What each entry written for an instance reads as. */
  lemma {:induction false} InstanceReadsBack(table: FieldTable, inst: Instance, held: Held, version: int)
    requires TypedInstance(table, inst, held, version)
    ensures InterpretMap(table, Norm(EraseInstance(inst)), held, version) == Ok(inst)
    decreases inst
  {
    hide EraseInstance, EraseField, Norm, Typed, InterpretEntry, InterpretEntries, SortEntries;
    var fields := inst.fields;
    var written := NormEntries(ErasedEntries(fields));
    EraseUnfolds(inst);
    NormUnfolds(EraseInstance(inst));
    forall i | 0 <= i < |written|
      ensures ReadsAsField(table, written[i], fields, held, version)
    {
      WrittenAt(fields, i);
      var k := Listed(fields.Keys)[i];
      FieldReadsBack(EntryByKey(table.entries, k).value.typ, fields[k], held, version);
      EntryReadsBack(table, k, fields, held, version);
    }
    forall k | k in fields ensures exists i :: 0 <= i < |written| && written[i].key == Int(k) {
      KeyIsWritten(fields, k);
    }
    SortedReadsBack(table, written, fields, held, version);
  }

  /** The entry's key is a field, and its value reads as that field. */
  ghost predicate ReadsAsField(table: FieldTable, e: MapEntry, fields: map<int, Field>, held: Held, version: int) {
    e.key.Int? && e.key.n in fields && InterpretEntry(table, e, held, version) == Ok(fields[e.key.n])
  }

  lemma EntryReadsBack(table: FieldTable, k: int, fields: map<int, Field>, held: Held, version: int)
    requires k in fields && IsInt64(k) && EntryByKey(table.entries, k).Some?
    requires InterpretValue(EntryByKey(table.entries, k).value.typ, Norm(EraseField(fields[k])), held, version)
          == Ok(fields[k])
    ensures ReadsAsField(table, NormEntry(MapEntry(Int(k), EraseField(fields[k]))), fields, held, version)
  {
    hide InterpretValue, Norm, EraseField;
  }

  lemma KeyIsWritten(fields: map<int, Field>, k: int)
    requires k in fields
    ensures exists i :: 0 <= i < |NormEntries(ErasedEntries(fields))|
                        && NormEntries(ErasedEntries(fields))[i].key == Int(k)
  {
    hide NormEntries, ErasedEntries, EraseField;
    var ks := Listed(fields.Keys);
    var i :| 0 <= i < |ks| && ks[i] == k;
    SameNumber(fields);
    WrittenAt(fields, i);
    assert NormEntries(ErasedEntries(fields))[i].key == Int(k);
  }

  lemma SameNumber(fields: map<int, Field>)
    ensures |NormEntries(ErasedEntries(fields))| == |Listed(fields.Keys)|
  {
  }

  /** Sorting the written entries changes nothing about what they read as. */
  lemma SortedReadsBack(table: FieldTable, written: seq<MapEntry>, fields: map<int, Field>, held: Held, version: int)
    requires forall i :: 0 <= i < |written| ==> ReadsAsField(table, written[i], fields, held, version)
    requires forall k :: k in fields ==> exists i :: 0 <= i < |written| && written[i].key == Int(k)
    ensures InterpretEntries(table, SortEntries(written), |written|, held, version) == Ok(fields)
  {
    hide InterpretEntry, InterpretEntries, SortEntries;
    var sorted := SortEntries(written);
    forall i | 0 <= i < |sorted| ensures ReadsAsField(table, sorted[i], fields, held, version) {
      var j := MemberOfSorted(written, i);
    }
    EntriesPointwise(table, sorted, |sorted|, held, version);
    var read := InterpretEntries(table, sorted, |sorted|, held, version).value;
    forall k ensures k in read <==> k in fields {
      if k in fields {
        var i :| 0 <= i < |written| && written[i].key == Int(k);
        var j := PlaceInSorted(written, i);
      }
    }
    forall k | k in read ensures read[k] == fields[k] {
      var i := LastOf(sorted, |sorted|, k);
    }
    assert read == fields;
  }

  /**
   Writing an instance and reading the bytes under its table gives it back exactly when it is an
   instance of the table, well typed throughout.
   */
  lemma InstanceSurvivesTheWire(p: Profile, table: FieldTable, inst: Instance, held: Held)
    requires Encode(p, EraseInstance(inst)).Ok? && |Encode(p, EraseInstance(inst)).value| < INT_LIMIT
    requires Count(EraseInstance(inst)) <= p.maxItems
    ensures var r := Decode(p, Encode(p, EraseInstance(inst)).value);
            r.Ok? && (Interpret(table, r.value, held) == Ok(inst) <==> TypedInstance(table, inst, held, table.version))
  {
    hide EncodeValue, DecodeItem, EraseInstance, Norm, InterpretMap, TypedInstance, Count;
    EncodeThenDecode(p, EraseInstance(inst));
    if TypedInstance(table, inst, held, table.version) {
      InstanceReadsBack(table, inst, held, table.version);
    }
    if Interpret(table, Norm(EraseInstance(inst)), held) == Ok(inst) {
      MapIsTyped(table, Norm(EraseInstance(inst)), held, table.version);
    }
  }
}
