/** The decoder as the repository writes it: a cursor and an item budget over fixed bytes (cbor/decode.go). */
module DecoderMachine {
  import opened ByteOrder
  import opened Decoding
  import opened Errors
  import opened Heads
  import opened Results
  import opened TextRules
  import opened Values

  /** What one decoder call leaves behind: the spec's value and cursor, or its refusal. */
  ghost predicate Moved<T>(spec: Decoded<T>, r: Result<T, DecodeError>, pos: nat, items: nat) {
    match spec
    case Ok(n) => r == Ok(n.val) && pos == n.pos && items == n.items
    case Err(e) => r == Err(e)
  }

  class Decoder {
    const data: seq<Byte>
    var pos: nat
    var items: nat

    ghost predicate Valid()
      reads this
    {
      pos <= |data|
    }

    constructor (data: seq<Byte>)
      ensures this.data == data && pos == 0 && items == 0 && Valid()
    {
      this.data := data;
      pos, items := 0, 0;
    }

    method Item(p: Profile, depth: nat) returns (r: Result<Value, DecodeError>)
      requires Valid()
      modifies this
      ensures Valid() && old(pos) <= pos
      ensures Moved(DecodeItem(p, data, old(pos), old(items), depth), r, pos, items)
      decreases |data| - pos, 0, 0
    {
      if depth > p.maxDepth {
        return Err(DecodeError(DepthExceeded, pos));
      }
      items := items + 1;
      if items > p.maxItems {
        return Err(DecodeError(SizeExceeded, pos));
      }
      if pos >= |data| {
        return Err(DecodeError(Truncated, pos));
      }
      var major, ai := data[pos] / 32, data[pos] % 32;
      if major == 7 {
        r := Simple(ai);
        return;
      }
      if major == 6 {
        return Err(DecodeError(Tag, pos));
      }
      var at := pos;
      pos := pos + 1;
      var arg := Arg(ai, at);
      if arg.Err? {
        return Err(arg.error);
      }
      match major {
        case 0 =>
          r := Ok(Int(arg.value));
        case 1 =>
          r := Ok(Int(-(arg.value + 1)));
        case 2 =>
          var raw := String(arg.value, at);
          r := if raw.Err? then Err(raw.error) else Ok(Bytes(raw.value));
        case 3 =>
          r := TextString(p, arg.value, at);
        case 4 =>
          r := ArrayValue(p, arg.value, depth);
        case _ =>
          r := MapValue(p, arg.value, at, depth);
      }
    }

    /** Reads an argument and refuses every form longer than it needs. */
    method Arg(ai: nat, headPos: nat) returns (r: Result<nat, DecodeError>)
      requires Valid() && ai < 32
      modifies this`pos
      ensures Valid() && old(pos) <= pos
      ensures match ReadArg(data, old(pos), ai, headPos)
              case Ok(a) => r == Ok(a.arg) && pos == a.pos
              case Err(e) => r == Err(e)
    {
      if ai < 24 {
        return Ok(ai);
      }
      if ai == 31 {
        return Err(DecodeError(IndefiniteLength, headPos));
      }
      if ai >= 28 {
        return Err(DecodeError(ReservedAdditional, headPos));
      }
      var width := if ai == 24 then 1 else if ai == 25 then 2 else if ai == 26 then 4 else 8;
      var least := if ai == 24 then 24 else if ai == 25 then 0x100 else if ai == 26 then 0x1_0000 else 0x1_0000_0000;
      r := Uint(width, headPos);
      if r.Ok? && r.value < least {
        return Err(DecodeError(NonMinimal, headPos));
      }
    }

    method Uint(width: nat, headPos: nat) returns (r: Result<nat, DecodeError>)
      requires Valid()
      modifies this`pos
      ensures Valid() && old(pos) <= pos
      ensures match TakeUint(data, old(pos), width, headPos)
              case Ok(a) => r == Ok(a.arg) && pos == a.pos
              case Err(e) => r == Err(e)
    {
      if pos + width > |data| {
        return Err(DecodeError(Truncated, headPos));
      }
      var v: nat := 0;
      var i := 0;
      while i < width
        invariant 0 <= i <= width
        invariant v == BigEndianValue(data[pos..pos + i])
      {
        assert data[pos..pos + (i + 1)][..i] == data[pos..pos + i];
        v := v * 256 + data[pos + i];
        i := i + 1;
      }
      pos := pos + width;
      r := Ok(v);
    }

    method String(arg: nat, headPos: nat) returns (r: Result<seq<Byte>, DecodeError>)
      requires Valid()
      modifies this`pos
      ensures Valid() && old(pos) <= pos
      ensures r == TakeBytes(data, old(pos), arg, headPos)
      ensures r.Ok? ==> pos == old(pos) + arg
    {
      if arg >= INT_LIMIT || pos + arg > |data| {
        return Err(DecodeError(Truncated, headPos));
      }
      r := Ok(data[pos..pos + arg]);
      pos := pos + arg;
    }

    method TextString(p: Profile, arg: nat, headPos: nat) returns (r: Result<Value, DecodeError>)
      requires Valid()
      modifies this`pos
      ensures Valid() && old(pos) <= pos
      ensures match TakeBytes(data, old(pos), arg, headPos)
              case Err(e) => r == Err(e)
              case Ok(raw) =>
                var bad := ValidateText(raw, p.isNfc);
                && pos == old(pos) + arg
                && r == if bad.Some? then Err(DecodeError(TextReason(bad.value), headPos)) else Ok(Text(raw))
    {
      var raw := String(arg, headPos);
      if raw.Err? {
        return Err(raw.error);
      }
      var bad := ValidateText(raw.value, p.isNfc);
      if bad.Some? {
        return Err(DecodeError(TextReason(bad.value), headPos));
      }
      r := Ok(Text(raw.value));
    }

    method ArrayValue(p: Profile, arg: nat, depth: nat) returns (r: Result<Value, DecodeError>)
      requires Valid()
      modifies this
      ensures Valid() && old(pos) <= pos
      ensures if arg >= INT_LIMIT then r == Err(DecodeError(SizeExceeded, old(pos)))
              else match DecodeItems(p, data, old(pos), old(items), depth + 1, arg)
                   case Ok(n) => r == Ok(Array(n.val)) && pos == n.pos && items == n.items
                   case Err(e) => r == Err(e)
      decreases |data| - pos, 1
    {
      if arg >= INT_LIMIT {
        return Err(DecodeError(SizeExceeded, pos));
      }
      var out: seq<Value> := [];
      var i := 0;
      while i < arg
        invariant 0 <= i <= arg
        invariant old(pos) <= pos && Valid()
        invariant DecodeItems(p, data, old(pos), old(items), depth + 1, i) == Ok(Parsed(out, pos, items))
      {
        var v := Item(p, depth + 1);
        if v.Err? {
          ItemRefusalStands(p, data, old(pos), old(items), depth + 1, i + 1, arg);
          return Err(v.error);
        }
        out := out + [v.value];
        i := i + 1;
      }
      r := Ok(Array(out));
    }

    method MapValue(p: Profile, arg: nat, headPos: nat, depth: nat) returns (r: Result<Value, DecodeError>)
      requires Valid()
      modifies this
      ensures Valid() && old(pos) <= pos
      ensures if arg >= INT_LIMIT then r == Err(DecodeError(SizeExceeded, headPos))
              else match DecodeEntries(p, data, old(pos), old(items), depth + 1, arg)
                   case Ok(n) => r == Ok(Map(n.val.entries)) && pos == n.pos && items == n.items
                   case Err(e) => r == Err(e)
      decreases |data| - pos, 1
    {
      if arg >= INT_LIMIT {
        return Err(DecodeError(SizeExceeded, headPos));
      }
      var state := Entries([], []);
      var keysAreText := false;
      var i := 0;
      while i < arg
        invariant 0 <= i <= arg && |state.entries| == i
        invariant old(pos) <= pos && Valid()
        invariant DecodeEntries(p, data, old(pos), old(items), depth + 1, i) == Ok(Parsed(state, pos, items))
        invariant i > 0 ==> keysAreText == state.entries[0].key.Text?
      {
        var entry := Entry(p, depth + 1, state, keysAreText);
        if entry.Err? {
          EntryRefusalStands(p, data, old(pos), old(items), depth + 1, i + 1, arg);
          return Err(entry.error);
        }
        state := entry.value;
        if i == 0 {
          keysAreText := state.entries[0].key.Text?;
        }
        i := i + 1;
      }
      r := Ok(Map(state.entries));
    }

    /** One turn of the map loop: a key, its rules, and its value. */
    method Entry(p: Profile, depth: nat, state: Entries, keysAreText: bool) returns (r: Result<Entries, DecodeError>)
      requires Valid()
      requires state.entries != [] ==> keysAreText == state.entries[0].key.Text?
      modifies this
      ensures Valid() && old(pos) <= pos
      ensures Moved(DecodeEntry(p, data, old(pos), old(items), depth, state), r, pos, items)
      decreases |data| - pos, 0, 1
    {
      var keyStart := pos;
      var key := Item(p, depth);
      if key.Err? {
        return Err(key.error);
      }
      var keyBytes := data[keyStart..pos];
      var bad := JudgeKey(state, keysAreText, key.value, keyBytes);
      if bad.Some? {
        return Err(DecodeError(bad.value, keyStart));
      }
      var val := Item(p, depth);
      if val.Err? {
        return Err(val.error);
      }
      r := Ok(Entries(state.entries + [MapEntry(key.value, val.value)], keyBytes));
    }

    method Simple(ai: nat) returns (r: Result<Value, DecodeError>)
      requires pos < |data|
      modifies this`pos
      ensures Valid() && old(pos) <= pos
      ensures Moved(DecodeSimple(ai, old(pos), items), r, pos, items)
    {
      var at := pos;
      if ai == 20 {
        pos := pos + 1;
        r := Ok(Bool(false));
      } else if ai == 21 {
        pos := pos + 1;
        r := Ok(Bool(true));
      } else if ai == 22 || ai == 23 {
        r := Err(DecodeError(Null, at));
      } else if ai == 25 || ai == 26 || ai == 27 {
        r := Err(DecodeError(Float, at));
      } else if ai == 31 {
        r := Err(DecodeError(IndefiniteLength, at));
      } else {
        r := Err(DecodeError(SimpleValue, at));
      }
    }
  }

  /** The switch on the key's type and the comparison with the key before it. */
  method JudgeKey(state: Entries, keysAreText: bool, key: Value, keyBytes: seq<Byte>)
    returns (bad: Option<Reason>)
    requires state.entries != [] ==> keysAreText == state.entries[0].key.Text?
    ensures bad == KeyRefusal(state, key, keyBytes)
  {
    var first := |state.entries| == 0;
    match key {
      case Int(_) =>
        if !first && keysAreText {
          return Some(MixedMapKeys);
        }
      case Text(_) =>
        if !first && !keysAreText {
          return Some(MixedMapKeys);
        }
      case _ =>
        return Some(BadMapKeyType);
    }
    if !first {
      var order := Compare(state.prevKey, keyBytes);
      if order == 0 {
        return Some(DuplicateMapKey);
      } else if order == 1 {
        return Some(UnsortedMapKeys);
      }
    }
    bad := None;
  }

  method DecodeBytes(p: Profile, data: seq<Byte>) returns (r: Result<Value, DecodeError>)
    ensures r == Decode(p, data)
  {
    var d := new Decoder(data);
    r := d.Item(p, 0);
    if r.Ok? && d.pos != |data| {
      return Err(DecodeError(TrailingBytes, d.pos));
    }
  }
}
