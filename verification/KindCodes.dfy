/**
 What each kind code of the wire reads (schema/table.go:26-35, schema/interpret.go:138-211),
 with the codes written as digits: for every value, registry and version.
 */
module KindCodes {
  import opened Conformance
  import opened Interpretation
  import opened Magnitudes
  import opened Results
  import opened Tables
  import opened Values

  /** A descriptor of the kind; what else it carries only matters to an array and a ref. */
  function OfKind(kind: int, td: TypeDescriptor): TypeDescriptor {
    td.(kind := kind)
  }

  /** 0 is the integer, 1 the byte string, 2 the text and 3 the boolean. */
  lemma ScalarCodes(td: TypeDescriptor, v: Value, held: Held, version: int)
    ensures InterpretValue(OfKind(0, td), v, held, version) == if v.Int? then Ok(FInt(v.n)) else Err(TypeMismatch)
    ensures InterpretValue(OfKind(1, td), v, held, version)
         == if v.Bytes? then Ok(FBytes(v.bytes)) else Err(TypeMismatch)
    ensures InterpretValue(OfKind(2, td), v, held, version) == if v.Text? then Ok(FText(v.text)) else Err(TypeMismatch)
    ensures InterpretValue(OfKind(3, td), v, held, version) == if v.Bool? then Ok(FBool(v.flag)) else Err(TypeMismatch)
  {
    hide InterpretMap, InterpretItems, TwoInts;
  }

  /** 4 is the decimal: scale and mantissa, the mantissa not a multiple of ten, or both zero. */
  lemma DecimalCode(td: TypeDescriptor, v: Value, held: Held, version: int)
    ensures forall s, m :: IsPair(v, s, m) ==>
              InterpretValue(OfKind(4, td), v, held, version)
              == if m % 10 != 0 || (s == 0 && m == 0) then Ok(FDecimal(s, m)) else Err(NonCanonicalDecimal)
    ensures (forall s, m :: !IsPair(v, s, m)) ==> InterpretValue(OfKind(4, td), v, held, version) == Err(BadMagnitude)
  {
    hide InterpretMap, InterpretItems, TwoInts, IsPair;
    TwoIntsShape(v);
  }

  /** 5 is the rational: numerator and denominator, coprime, the denominator positive. */
  lemma RationalCode(td: TypeDescriptor, v: Value, held: Held, version: int)
    ensures forall a, b :: IsPair(v, a, b) ==>
              InterpretValue(OfKind(5, td), v, held, version)
              == if b > 0 && Coprime(a, b) then Ok(FRational(a, b)) else Err(NonCanonicalRational)
    ensures (forall a, b :: !IsPair(v, a, b)) ==> InterpretValue(OfKind(5, td), v, held, version) == Err(BadMagnitude)
  {
    hide InterpretMap, InterpretItems, TwoInts, IsPair, CheckRational, Coprime;
    TwoIntsShape(v);
    if TwoInts(v).Ok? {
      AcceptedExactlyWhenCoprime(TwoInts(v).value.0, TwoInts(v).value.1);
    }
  }

  /** 6 is the array: each element read as the element type, if there is one. */
  lemma ArrayCode(td: TypeDescriptor, v: Value, held: Held, version: int)
    ensures !v.Array? ==> InterpretValue(OfKind(6, td), v, held, version) == Err(TypeMismatch)
    ensures v.Array? && td.elem.None? ==> InterpretValue(OfKind(6, td), v, held, version) == Err(MalformedDescriptor)
    ensures v.Array? && td.elem.Some? ==>
              forall fs :: InterpretValue(OfKind(6, td), v, held, version) == Ok(FArray(fs))
                      <==> |fs| == |v.items|
                           && forall i :: 0 <= i < |fs| ==>
                                InterpretValue(td.elem.value, v.items[i], held, version) == Ok(fs[i])
    ensures InterpretValue(OfKind(6, td), v, held, version).Ok?
        ==> InterpretValue(OfKind(6, td), v, held, version).value.FArray?
  {
    ArrayOpens(td, v, held, version);
    hide InterpretValue, InterpretItems;
    if v.Array? && td.elem.Some? {
      ItemsPointwise(td.elem.value, v.items, |v.items|, held, version);
      var r := InterpretItems(td.elem.value, v.items, |v.items|, held, version);
      forall fs | |fs| == |v.items|
                  && forall i :: 0 <= i < |fs| ==> InterpretValue(td.elem.value, v.items[i], held, version) == Ok(fs[i])
        ensures r == Ok(fs)
      {
        assert r.value == fs;
      }
    }
  }

  lemma ArrayOpens(td: TypeDescriptor, v: Value, held: Held, version: int)
    ensures InterpretValue(OfKind(6, td), v, held, version)
         == if !v.Array? then Err(TypeMismatch)
            else if td.elem.None? then Err(MalformedDescriptor)
            else match InterpretItems(td.elem.value, v.items, |v.items|, held, version)
                 case Ok(items) => Ok(FArray(items))
                 case Err(e) => Err(e)
  {
    hide InterpretItems, InterpretMap, TwoInts;
  }

  /** 7 is the ref: the value read under the table held for the target code at the root's version. */
  lemma RefCode(td: TypeDescriptor, v: Value, held: Held, version: int)
    ensures RegKey(td.target, version) !in held ==>
              InterpretValue(OfKind(7, td), v, held, version) == Err(UnresolvedRef)
    ensures RegKey(td.target, version) in held ==>
              InterpretValue(OfKind(7, td), v, held, version)
              == match InterpretMap(held[RegKey(td.target, version)], v, held, version)
                 case Ok(inst) => Ok(FRef(inst))
                 case Err(e) => Err(e)
  {
    hide InterpretMap, InterpretItems, TwoInts;
  }

  /** Every other code is one this version cannot resolve. */
  lemma OtherCodes(td: TypeDescriptor, v: Value, held: Held, version: int)
    requires td.kind < 0 || td.kind > 7
    ensures InterpretValue(td, v, held, version) == Err(UnresolvedRef)
  {
  }
}
