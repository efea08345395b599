/** The closed value type of the codec and the limits it works under (cbor/value.go, cbor/encode.go:16-19). */
module Values {
  import opened ByteOrder

  datatype Value =
    | Int(n: int)
    | Bytes(bytes: seq<Byte>)
    | Text(text: seq<Byte>)
    | Bool(flag: bool)
    | Array(items: seq<Value>)
    | Map(entries: seq<MapEntry>)
    | Decimal(scale: int, mantissa: int)
    | Rational(num: int, den: int)

  datatype MapEntry = MapEntry(key: Value, value: Value)

  /**
   The declared bounds, and the Unicode normalization test the codec takes from a library.
   The bounds are parameters so that runs under different bounds can be compared.
   */
  datatype Profile = Profile(maxDepth: nat, maxItems: nat, isNfc: seq<Byte> -> bool)

  const MAX_DEPTH: nat := 64
  const MAX_ITEMS: nat := 0x10_0000

  function DeclaredProfile(isNfc: seq<Byte> -> bool): Profile {
    Profile(MAX_DEPTH, MAX_ITEMS, isNfc)
  }

  /** The number of data items in the wire form of `v`. Keys count; a magnitude is an array of two. */
  function Count(v: Value): (n: nat)
    ensures n >= 1
    decreases v
  {
    match v
    case Array(items) => 1 + CountItems(items, |items|)
    case Map(entries) => 1 + CountEntries(entries, |entries|)
    case Decimal(_, _) => 3
    case Rational(_, _) => 3
    case _ => 1
  }

  function CountItems(items: seq<Value>, k: nat): (n: nat)
    requires k <= |items|
    ensures n >= k
    decreases items, k
  {
    if k == 0 then 0 else CountItems(items, k - 1) + Count(items[k - 1])
  }

  function CountEntries(entries: seq<MapEntry>, k: nat): (n: nat)
    requires k <= |entries|
    ensures n >= 2 * k
    decreases entries, k
  {
    if k == 0 then 0
    else
      var e := entries[k - 1];
      assert e.key < e && e.value < e;
      CountEntries(entries, k - 1) + Count(e.key) + Count(e.value)
  }
}
