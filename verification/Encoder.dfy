/** The encoder as the repository writes it: an append-only buffer (cbor/encode.go:30-209). */
module EncoderMachine {
  import opened ByteOrder
  import opened Encoding
  import opened Errors
  import opened Heads
  import opened Magnitudes
  import opened Results
  import opened Shifts
  import opened Sorting
  import opened TextRules
  import opened Values

  /** What one encoder call leaves behind: the spec's bytes appended, or its refusal. */
  ghost predicate Appended(before: seq<Byte>, after: seq<Byte>, err: Option<EncodeError>, spec: Encoded) {
    match spec
    case Ok(bytes) => err.None? && after == before + bytes
    case Err(e) => err == Some(e) && before <= after
  }

  class Encoder {
    var buf: seq<Byte>

    constructor ()
      ensures buf == []
    {
      buf := [];
    }

    method Value(p: Profile, v: Value, depth: nat) returns (err: Option<EncodeError>)
      modifies this
      ensures Appended(old(buf), buf, err, EncodeValue(p, v, depth))
      decreases v, 1
    {
      if depth > p.maxDepth {
        return Some(NestingTooDeep);
      }
      match v {
        case Int(n) =>
          err := Integer(n);
        case Bytes(b) =>
          WriteHead(2, |b|);
          buf := buf + b;
          err := None;
        case Text(s) =>
          err := TextString(p, s);
        case Bool(flag) =>
          buf := buf + if flag then [0xf5] else [0xf4];
          err := None;
        case Array(items) =>
          WriteHead(4, |items|);
          err := Items(p, items, depth + 1);
        case Map(entries) =>
          err := MapValue(p, entries, depth);
        case Decimal(scale, mantissa) =>
          err := CheckDecimal(scale, mantissa);
          if err.None? {
            err := IntPair(p, scale, mantissa, depth);
          }
        case Rational(num, den) =>
          err := CheckRational(num, den);
          if err.None? {
            err := IntPair(p, num, den, depth);
          }
      }
    }

    /** Writes the shortest head, byte by byte as the shifts of the source do. */
    method WriteHead(major: nat, arg: nat)
      requires major < 8
      modifies this
      ensures buf == old(buf) + Head(major, arg)
    {
      var m := major * 32;
      ShiftTwoBytes(arg);
      ShiftFourBytes(arg);
      ShiftEightBytes(arg);
      if arg < 24 {
        buf := buf + [m + arg];
      } else if arg < 0x100 {
        buf := buf + [m + 24, arg % 0x100];
      } else if arg < 0x1_0000 {
        buf := buf + [m + 25, arg / 0x100 % 0x100, arg % 0x100];
      } else if arg < 0x1_0000_0000 {
        buf := buf + [m + 26, arg / 0x100_0000 % 0x100, arg / 0x1_0000 % 0x100,
                      arg / 0x100 % 0x100, arg % 0x100];
      } else {
        buf := buf + [m + 27,
                      arg / 0x100_0000_0000_0000 % 0x100, arg / 0x1_0000_0000_0000 % 0x100,
                      arg / 0x100_0000_0000 % 0x100, arg / 0x1_0000_0000 % 0x100,
                      arg / 0x100_0000 % 0x100, arg / 0x1_0000 % 0x100,
                      arg / 0x100 % 0x100, arg % 0x100];
      }
    }

    method TextString(p: Profile, s: seq<Byte>) returns (err: Option<EncodeError>)
      modifies this
      ensures Appended(old(buf), buf, err, EncodeText(p, s))
    {
      err := ValidateText(s, p.isNfc);
      if err.Some? {
        return;
      }
      WriteHead(3, |s|);
      buf := buf + s;
    }

    method Integer(n: int) returns (err: Option<EncodeError>)
      modifies this
      ensures Appended(old(buf), buf, err, EncodeInt(n))
    {
      if n >= 0 {
        if n >= UINT64_LIMIT {
          return Some(IntegerTooLarge);
        }
        WriteHead(0, n);
        return None;
      }
      var arg := -n - 1;
      if arg >= UINT64_LIMIT {
        return Some(IntegerTooSmall);
      }
      WriteHead(1, arg);
      return None;
    }

    method IntPair(p: Profile, a: int, b: int, depth: nat) returns (err: Option<EncodeError>)
      modifies this
      ensures Appended(old(buf), buf, err, EncodeIntPair(p, a, b, depth))
    {
      if depth + 1 > p.maxDepth {
        return Some(NestingTooDeep);
      }
      WriteHead(4, 2);
      err := Integer(a);
      if err.Some? {
        return;
      }
      err := Integer(b);
    }

    method Items(p: Profile, items: seq<Value>, depth: nat) returns (err: Option<EncodeError>)
      modifies this
      ensures Appended(old(buf), buf, err, EncodeItems(p, items, |items|, depth))
      decreases items, 2
    {
      var i := 0;
      while i < |items|
        invariant 0 <= i <= |items|
        invariant Appended(old(buf), buf, None, EncodeItems(p, items, i, depth))
      {
        err := Value(p, items[i], depth);
        if err.Some? {
          ItemRefusalStands(p, items, i + 1, |items|, depth);
          return;
        }
        i := i + 1;
      }
      err := None;
    }

    method MapValue(p: Profile, entries: seq<MapEntry>, depth: nat) returns (err: Option<EncodeError>)
      modifies this
      ensures Appended(old(buf), buf, err,
                       match EncodePairs(p, entries, |entries|, depth + 1)
                       case Ok(pairs) => FinishMap(pairs)
                       case Err(e) => Err(e))
      decreases entries, 2
    {
      var pairs: seq<Pair> := [];
      var keysAreText := false;
      var i := 0;
      while i < |entries|
        invariant 0 <= i <= |entries|
        invariant EncodePairs(p, entries, i, depth + 1) == Ok(pairs)
        invariant i > 0 ==> keysAreText == entries[0].key.Text?
        invariant buf == old(buf)
      {
        if i == 0 {
          keysAreText := entries[0].key.Text?;
        }
        var pair := EncodeEntry(p, keysAreText, entries[i], depth + 1);
        if pair.Err? {
          PairRefusalStands(p, entries, i + 1, |entries|, depth + 1);
          return Some(pair.error);
        }
        pairs := pairs + [pair.value];
        i := i + 1;
      }
      err := SortAndWrite(pairs);
    }

    /** The second half of `mapValue`: sort, refuse duplicates, write. */
    method SortAndWrite(pairs: seq<Pair>) returns (err: Option<EncodeError>)
      modifies this
      ensures Appended(old(buf), buf, err, FinishMap(pairs))
    {
      hide Sort, Concat, Head, HasDuplicate;
      var a := new Pair[|pairs|](j requires 0 <= j < |pairs| => pairs[j]);
      assert a[..] == pairs;
      SortStable(a);
      var duplicate := FindDuplicate(a);
      if duplicate {
        return Some(DuplicateKey);
      }
      WriteHead(5, |pairs|);
      WritePairs(a);
      err := None;
    }

    method WritePairs(a: array<Pair>)
      modifies this
      ensures buf == old(buf) + Concat(a[..], a.Length)
    {
      var i := 0;
      while i < a.Length
        invariant 0 <= i <= a.Length
        invariant buf == old(buf) + Concat(a[..], i)
      {
        buf := buf + a[i].key;
        buf := buf + a[i].val;
        i := i + 1;
      }
    }
  }

  method FindDuplicate(a: array<Pair>) returns (duplicate: bool)
    ensures duplicate <==> HasDuplicate(a[..])
  {
    var i := 1;
    while i < a.Length
      invariant 1 <= i
      invariant forall j :: 1 <= j < i && j < a.Length ==> a[j - 1].key != a[j].key
    {
      if a[i - 1].key == a[i].key {
        assert a[..][i - 1].key == a[..][i].key;
        return true;
      }
      i := i + 1;
    }
    duplicate := false;
  }

  /** One turn of the map loop: the key's type, then its bytes, then the bytes of its value. */
  method EncodeEntry(p: Profile, keysAreText: bool, ent: MapEntry, depth: nat)
    returns (r: Result<Pair, EncodeError>)
    ensures r == EncodePair(p, keysAreText, ent, depth)
    decreases ent, 4
  {
    match ent.key {
      case Int(_) =>
        if keysAreText {
          return Err(MixedKeys);
        }
      case Text(_) =>
        if !keysAreText {
          return Err(MixedKeys);
        }
      case _ =>
        return Err(BadKey);
    }
    var kb := EncodeSub(p, ent.key, depth);
    if kb.Err? {
      return Err(kb.error);
    }
    var vb := EncodeSub(p, ent.value, depth);
    if vb.Err? {
      return Err(vb.error);
    }
    r := Ok(Keyed(kb.value, vb.value));
  }

  /** A nested value in a buffer of its own. */
  method EncodeSub(p: Profile, v: Value, depth: nat) returns (r: Encoded)
    ensures r == EncodeValue(p, v, depth)
    decreases v, 3
  {
    var sub := new Encoder();
    var err := sub.Value(p, v, depth);
    assert forall s: seq<Byte> :: [] + s == s;
    r := if err.Some? then Err(err.value) else Ok(sub.buf);
  }

  method EncodeBytes(p: Profile, v: Value) returns (r: Encoded)
    ensures r == Encode(p, v)
  {
    r := EncodeSub(p, v, 0);
  }
}
