/** Field tables and the registry a node holds them in (schema/table.go). */
module Tables {
  import opened ByteOrder
  import opened Results

  const KIND_INT := 0
  const KIND_BYTES := 1
  const KIND_TEXT := 2
  const KIND_BOOL := 3
  const KIND_DECIMAL := 4
  const KIND_RATIONAL := 5
  const KIND_ARRAY := 6
  const KIND_REF := 7

  /** A field's type: a kind, the element type of an array, the target code of a ref, a unit code. */
  datatype TypeDescriptor = TypeDescriptor(kind: int, elem: Option<TypeDescriptor>, target: int, unit: int)

  datatype Entry = Entry(key: int, name: seq<Byte>, typ: TypeDescriptor, presence: int)

  datatype FieldTable = FieldTable(describes: int, version: int, entries: seq<Entry>)

  /** The first entry with a key, as the table's linear search finds it. */
  function EntryByKey(entries: seq<Entry>, key: int): (r: Option<Entry>)
    ensures r.Some? ==> r.value in entries && r.value.key == key
    ensures r.None? <==> forall i :: 0 <= i < |entries| ==> entries[i].key != key
  {
    if entries == [] then None
    else if entries[0].key == key then Some(entries[0])
    else EntryByKey(entries[1..], key)
  }

  method FindEntry(table: FieldTable, key: int) returns (r: Option<Entry>)
    ensures r == EntryByKey(table.entries, key)
  {
    var i := 0;
    while i < |table.entries|
      invariant 0 <= i <= |table.entries|
      invariant EntryByKey(table.entries, key) == EntryByKey(table.entries[i..], key)
    {
      if table.entries[i].key == key {
        return Some(table.entries[i]);
      }
      i := i + 1;
    }
    r := None;
  }

  /** With keys 0, 1, ..., n-1 in place, the search is an index. */
  lemma DenseLookup(entries: seq<Entry>, base: nat, key: int)
    requires forall i :: 0 <= i < |entries| ==> entries[i].key == base + i
    ensures EntryByKey(entries, key)
         == if base <= key < base + |entries| then Some(entries[key - base]) else None
  {
  }

  // ---------------------------------------------------------------- registry

  datatype RegKey = RegKey(typ: int, version: int)
  type Held = map<RegKey, FieldTable>

  function KeyOf(t: FieldTable): RegKey {
    RegKey(t.describes, t.version)
  }

  /** Adding a table; nothing when its slot is taken, where the source panics. */
  function AddTable(held: Held, t: FieldTable): Option<Held> {
    if KeyOf(t) in held then None else Some(held[KeyOf(t) := t])
  }

  function AddAll(held: Held, ts: seq<FieldTable>): Option<Held> {
    if ts == [] then Some(held)
    else
      match AddAll(held, ts[..|ts| - 1])
      case None => None
      case Some(front) => AddTable(front, ts[|ts| - 1])
  }

  /** Every table of `a` is held unchanged in `b`. */
  ghost predicate Grown(a: Held, b: Held) {
    forall k :: k in a ==> k in b && b[k] == a[k]
  }

  /** A run of successful additions keeps every table and files the new ones under their own keys. */
  lemma {:induction false} AddingOnlyGrows(held: Held, ts: seq<FieldTable>)
    requires AddAll(held, ts).Some?
    ensures var after := AddAll(held, ts).value;
            && Grown(held, after)
            && |after| == |held| + |ts|
            && (forall k :: k in after && k !in held ==> KeyOf(after[k]) == k && after[k] in ts)
            && (forall t :: t in ts ==> KeyOf(t) in after && after[KeyOf(t)] == t)
  {
    hide AddTable;
    if ts != [] {
      var front, last := ts[..|ts| - 1], ts[|ts| - 1];
      AddingOnlyGrows(held, front);
      AddingOneGrows(AddAll(held, front).value, last);
      assert ts == front + [last];
    }
  }

  lemma AddingOneGrows(held: Held, t: FieldTable)
    requires AddTable(held, t).Some?
    ensures var after := AddTable(held, t).value;
            && KeyOf(t) !in held && after == held[KeyOf(t) := t]
            && Grown(held, after) && |after| == |held| + 1
  {
    assert held[KeyOf(t) := t].Keys == held.Keys + {KeyOf(t)};
  }

  class Registry {
    var tables: Held

    constructor ()
      ensures tables == map[]
    {
      tables := map[];
    }

    /** Holds exactly one table per type and version; a second one is refused and changes nothing. */
    method Add(t: FieldTable) returns (added: bool)
      modifies this
      ensures added <==> KeyOf(t) !in old(tables)
      ensures AddTable(old(tables), t) == if added then Some(tables) else None
      ensures !added ==> tables == old(tables)
      ensures Grown(old(tables), tables)
    {
      var k := RegKey(t.describes, t.version);
      if k in tables {
        return false;
      }
      tables := tables[k := t];
      added := true;
    }

    method Lookup(typ: int, version: int) returns (r: Option<FieldTable>)
      ensures r == LookupTable(tables, typ, version)
    {
      var k := RegKey(typ, version);
      r := if k in tables then Some(tables[k]) else None;
    }
  }

  function LookupTable(held: Held, typ: int, version: int): Option<FieldTable> {
    if RegKey(typ, version) in held then Some(held[RegKey(typ, version)]) else None
  }
}
