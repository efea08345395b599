/**
 The function the decoder computes: the value at a position, the position and item count
 behind it, or the refusal and where it was found (cbor/decode.go).
 */
module Decoding {
  import opened ByteOrder
  import opened Errors
  import opened Heads
  import opened Results
  import opened TextRules
  import opened Values

  datatype Parsed<+T> = Parsed(val: T, pos: nat, items: nat)
  type Decoded<+T> = Result<Parsed<T>, DecodeError>

  /** The state of the map loop: the entries read and the bytes of the last key. */
  datatype Entries = Entries(entries: seq<MapEntry>, prevKey: seq<Byte>)

  function Decode(p: Profile, data: seq<Byte>): Result<Value, DecodeError> {
    var r :- DecodeItem(p, data, 0, 0, 0);
    if r.pos != |data| then Err(DecodeError(TrailingBytes, r.pos)) else Ok(r.val)
  }

  function DecodeItem(p: Profile, data: seq<Byte>, pos: nat, items: nat, depth: nat): (r: Decoded<Value>)
    requires pos <= |data|
    ensures r.Ok? ==> pos < r.value.pos <= |data|
    decreases |data| - pos, 0, 0
  {
    if depth > p.maxDepth then Err(DecodeError(DepthExceeded, pos))
    else if items + 1 > p.maxItems then Err(DecodeError(SizeExceeded, pos))
    else if pos >= |data| then Err(DecodeError(Truncated, pos))
    else
      var major, ai := data[pos] / 32, data[pos] % 32;
      if major == 7 then DecodeSimple(ai, pos, items + 1)
      else if major == 6 then Err(DecodeError(Tag, pos))
      else
        var a :- ReadArg(data, pos + 1, ai, pos);
        match major
        case 0 => Ok(Parsed(Int(a.arg), a.pos, items + 1))
        case 1 => Ok(Parsed(Int(-1 - a.arg), a.pos, items + 1))
        case 2 =>
          var raw :- TakeBytes(data, a.pos, a.arg, pos);
          Ok(Parsed(Bytes(raw), a.pos + a.arg, items + 1))
        case 3 =>
          var raw :- TakeBytes(data, a.pos, a.arg, pos);
          var bad := ValidateText(raw, p.isNfc);
          if bad.Some? then Err(DecodeError(TextReason(bad.value), pos))
          else Ok(Parsed(Text(raw), a.pos + a.arg, items + 1))
        case 4 =>
          if a.arg >= INT_LIMIT then Err(DecodeError(SizeExceeded, a.pos))
          else
            var r :- DecodeItems(p, data, a.pos, items + 1, depth + 1, a.arg);
            Ok(Parsed(Array(r.val), r.pos, r.items))
        case _ =>
          if a.arg >= INT_LIMIT then Err(DecodeError(SizeExceeded, pos))
          else
            var r :- DecodeEntries(p, data, a.pos, items + 1, depth + 1, a.arg);
            Ok(Parsed(Map(r.val.entries), r.pos, r.items))
  }

  /** Major type 7, restricted to the booleans. */
  function DecodeSimple(ai: nat, pos: nat, items: nat): (r: Decoded<Value>)
    ensures r.Ok? ==> r.value.pos == pos + 1 && r.value.items == items
  {
    match ai
    case 20 => Ok(Parsed(Bool(false), pos + 1, items))
    case 21 => Ok(Parsed(Bool(true), pos + 1, items))
    case 22 => Err(DecodeError(Null, pos))
    case 23 => Err(DecodeError(Null, pos))
    case 25 => Err(DecodeError(Float, pos))
    case 26 => Err(DecodeError(Float, pos))
    case 27 => Err(DecodeError(Float, pos))
    case 31 => Err(DecodeError(IndefiniteLength, pos))
    case _ => Err(DecodeError(SimpleValue, pos))
  }

  /** A string body: a length beyond a native int is as truncated as one past the end. */
  function TakeBytes(data: seq<Byte>, pos: nat, arg: nat, headPos: nat): (r: Result<seq<Byte>, DecodeError>)
    requires pos <= |data|
    ensures r.Ok? ==> pos + arg <= |data| && |r.value| == arg
  {
    if arg >= INT_LIMIT || pos + arg > |data| then Err(DecodeError(Truncated, headPos))
    else Ok(data[pos..pos + arg])
  }

  /** `k` items, one behind the other. */
  function DecodeItems(p: Profile, data: seq<Byte>, pos: nat, items: nat, depth: nat, k: nat)
    : (r: Decoded<seq<Value>>)
    requires pos <= |data|
    ensures r.Ok? ==> pos <= r.value.pos <= |data| && |r.value.val| == k
    decreases |data| - pos, 1, k
  {
    if k == 0 then Ok(Parsed([], pos, items))
    else
      var front :- DecodeItems(p, data, pos, items, depth, k - 1);
      var last :- DecodeItem(p, data, front.pos, front.items, depth);
      Ok(Parsed(front.val + [last.val], last.pos, last.items))
  }

  /** `k` map entries with strictly ascending keys of one type. */
  function DecodeEntries(p: Profile, data: seq<Byte>, pos: nat, items: nat, depth: nat, k: nat)
    : (r: Decoded<Entries>)
    requires pos <= |data|
    ensures r.Ok? ==> pos <= r.value.pos <= |data| && |r.value.val.entries| == k
    decreases |data| - pos, 1, k
  {
    if k == 0 then Ok(Parsed(Entries([], []), pos, items))
    else
      var front :- DecodeEntries(p, data, pos, items, depth, k - 1);
      DecodeEntry(p, data, front.pos, front.items, depth, front.val)
  }

  /** The rule a key is refused by, if any: its type, then agreement with the first key, then order. */
  function KeyRefusal(state: Entries, key: Value, keyBytes: seq<Byte>): Option<Reason> {
    if !key.Int? && !key.Text? then Some(BadMapKeyType)
    else if state.entries == [] then None
    else if key.Text? != state.entries[0].key.Text? then Some(MixedMapKeys)
    else if Compare(state.prevKey, keyBytes) == 0 then Some(DuplicateMapKey)
    else if Compare(state.prevKey, keyBytes) == 1 then Some(UnsortedMapKeys)
    else None
  }

  function DecodeEntry(p: Profile, data: seq<Byte>, pos: nat, items: nat, depth: nat, state: Entries)
    : (r: Decoded<Entries>)
    requires pos <= |data|
    ensures r.Ok? ==> pos < r.value.pos <= |data| && |r.value.val.entries| == |state.entries| + 1
    decreases |data| - pos, 0, 1
  {
    var key :- DecodeItem(p, data, pos, items, depth);
    var keyBytes := data[pos..key.pos];
    var bad := KeyRefusal(state, key.val, keyBytes);
    if bad.Some? then Err(DecodeError(bad.value, pos))
    else
      var val :- DecodeItem(p, data, key.pos, key.items, depth);
      Ok(Parsed(Entries(state.entries + [MapEntry(key.val, val.val)], keyBytes), val.pos, val.items))
  }

  /** A refusal met part way through a loop is the refusal of the whole. */
  lemma {:induction false} ItemRefusalStands(
      p: Profile, data: seq<Byte>, pos: nat, items: nat, depth: nat, j: nat, k: nat)
    requires pos <= |data| && j <= k
    requires DecodeItems(p, data, pos, items, depth, j).Err?
    ensures DecodeItems(p, data, pos, items, depth, k) == DecodeItems(p, data, pos, items, depth, j)
    decreases k - j
  {
    if j < k {
      ItemRefusalStands(p, data, pos, items, depth, j, k - 1);
    }
  }

  lemma {:induction false} EntryRefusalStands(
      p: Profile, data: seq<Byte>, pos: nat, items: nat, depth: nat, j: nat, k: nat)
    requires pos <= |data| && j <= k
    requires DecodeEntries(p, data, pos, items, depth, j).Err?
    ensures DecodeEntries(p, data, pos, items, depth, k) == DecodeEntries(p, data, pos, items, depth, j)
    decreases k - j
  {
    if j < k {
      EntryRefusalStands(p, data, pos, items, depth, j, k - 1);
    }
  }
}
