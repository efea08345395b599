/**
 What each refusal of the decoder means: it is given exactly when an item start the decoder
 reaches shows the defect the reason names, at the position named. An input without such a
 start is accepted (cbor/errors.go:11-38, cbor/decode.go).
 */
module DecodeRefusals {
  import opened ByteOrder
  import opened Decoding
  import opened EncodingFacts
  import opened Errors
  import opened Heads
  import opened Reach
  import opened Results
  import opened TextRules
  import opened Values

  /** The number of argument bytes the first byte of a head announces. */
  function AnnouncedWidth(b: Byte): nat {
    if b % 32 == 24 then 1 else if b % 32 == 25 then 2 else if b % 32 == 26 then 4
    else if b % 32 == 27 then 8 else 0
  }

  predicate HeadFits(data: seq<Byte>, pos: nat) {
    pos < |data| && pos + 1 + AnnouncedWidth(data[pos]) <= |data|
  }

  /** Where the head at `pos` ends, and the argument it carries. */
  function HeadEnd(data: seq<Byte>, pos: nat): (end: nat)
    requires HeadFits(data, pos)
    ensures pos < end <= |data|
  {
    pos + 1 + AnnouncedWidth(data[pos])
  }

  function HeadArg(data: seq<Byte>, pos: nat): nat
    requires HeadFits(data, pos)
  {
    if data[pos] % 32 < 24 then data[pos] % 32 else BigEndianValue(data[pos + 1..HeadEnd(data, pos)])
  }

  /** The head at `pos` is all there, in the shortest form for its argument. */
  predicate Minimal(data: seq<Byte>, pos: nat) {
    HeadFits(data, pos) && data[pos] % 32 < 28 && ArgWidth(HeadArg(data, pos)) == AnnouncedWidth(data[pos])
  }

  /** The text head at `pos` has its whole body `s` behind it. */
  predicate TextAt(data: seq<Byte>, pos: nat, s: seq<Byte>) {
    && Minimal(data, pos) && data[pos] / 32 == 3 && HeadEnd(data, pos) + |s| <= |data|
    && HeadArg(data, pos) == |s| && data[HeadEnd(data, pos)..HeadEnd(data, pos) + |s|] == s
  }

  /** An array or map head at `pos` that counts past a native int, and where that is reported. */
  predicate HugeHead(data: seq<Byte>, pos: nat, reported: nat) {
    && HeadFits(data, pos) && HeadArg(data, pos) >= INT_LIMIT
    && (data[pos] / 32 == 4 || data[pos] / 32 == 5)
    && reported == if data[pos] / 32 == 4 then HeadEnd(data, pos) else pos
  }

  /** What the bytes of an item starting at `pos` show by themselves. */
  ghost predicate BytesShow(p: Profile, data: seq<Byte>, pos: nat, reason: Reason) {
    match reason
    case Truncated =>
      || pos >= |data|
      || (data[pos] / 32 < 6 && !HeadFits(data, pos))
      || (data[pos] / 32 in {2, 3} && Minimal(data, pos) && HeadArg(data, pos) > |data| - HeadEnd(data, pos))
    case NonMinimal =>
      HeadFits(data, pos) && data[pos] / 32 < 6 && ArgWidth(HeadArg(data, pos)) < AnnouncedWidth(data[pos])
    case IndefiniteLength => pos < |data| && data[pos] / 32 != 6 && data[pos] % 32 == 31
    case ReservedAdditional => pos < |data| && data[pos] / 32 < 6 && 28 <= data[pos] % 32 <= 30
    case Tag => pos < |data| && data[pos] / 32 == 6
    case Float => pos < |data| && data[pos] in {0xf9, 0xfa, 0xfb}
    case Null => pos < |data| && data[pos] in {0xf6, 0xf7}
    case SimpleValue =>
      pos < |data| && data[pos] / 32 == 7 && data[pos] !in {0xf4, 0xf5, 0xf6, 0xf7, 0xf9, 0xfa, 0xfb, 0xff}
    case InvalidUtf8 =>
      exists s :: TextAt(data, pos, s) && !ValidUtf8(s)
    case ByteOrderMark =>
      exists s :: TextAt(data, pos, s) && ValidUtf8(s) && HasBom(s)
    case NonNfc =>
      exists s :: TextAt(data, pos, s) && ValidUtf8(s) && !HasBom(s) && !p.isNfc(s)
    case _ => false
  }

  /** The decoder reaches `path` at `pos` and reads an item of value `v` there, up to `end`. */
  ghost predicate ItemThere(p: Profile, data: seq<Byte>, path: seq<Step>, v: Value, pos: int, end: int) {
    && 0 <= pos < end <= |data|
    && StartAt(p, data, path).Some? && StartAt(p, data, path).value.pos == pos
    && var r := ItemFrom(p, data, StartAt(p, data, path).value, |path|);
       r.Ok? && r.value.val == v && r.value.pos == end
  }

  /** The path ends at key `k` of a map. */
  predicate KeyPath(path: seq<Step>) {
    path != [] && path[|path| - 1].Key?
  }

  /** Key `j` of the map that `path` leads to a later key of. */
  function EarlierKey(path: seq<Step>, j: nat): seq<Step>
    requires KeyPath(path)
  {
    path[..|path| - 1] + [Key(j)]
  }

  /** Keys `j` and the last of `path`, of one map, with their values and bytes. */
  ghost predicate TwoKeys(
      p: Profile, data: seq<Byte>, path: seq<Step>, j: int, u: Value, q: int, qEnd: int, v: Value, pos: int, end: int)
  {
    && KeyPath(path) && 0 <= j < path[|path| - 1].k
    && ItemThere(p, data, EarlierKey(path, j), u, q, qEnd) && ItemThere(p, data, path, v, pos, end)
  }

  /** The last key of `path` and the one just before it, of one type, with the same bytes or descending. */
  ghost predicate NeighbourKeys(
      p: Profile, data: seq<Byte>, path: seq<Step>, u: Value, q: int, qEnd: int, v: Value, pos: int, end: int,
      same: bool)
  {
    && KeyPath(path) && TwoKeys(p, data, path, path[|path| - 1].k - 1, u, q, qEnd, v, pos, end)
    && IsKey(v) && u.Text? == v.Text?
    && if same then data[q..qEnd] == data[pos..end] else Less(data[pos..end], data[q..qEnd])
  }

  /** The start at `path` shows what the refusal names, at the position it names. */
  ghost predicate ShownAt(p: Profile, data: seq<Byte>, path: seq<Step>, e: DecodeError) {
    && StartAt(p, data, path).Some?
    && var s := StartAt(p, data, path).value;
       match e.reason
       case DepthExceeded => e.pos == s.pos && |path| == p.maxDepth + 1
       case SizeExceeded =>
         |path| <= p.maxDepth
         && if s.items == p.maxItems then e.pos == s.pos else HugeHead(data, s.pos, e.pos)
       case TrailingBytes => e.pos < |data| && path == [] && exists v :: ItemThere(p, data, [], v, 0, e.pos)
       case BadMapKeyType =>
         KeyPath(path) && exists v, end :: ItemThere(p, data, path, v, e.pos, end) && !IsKey(v)
       case MixedMapKeys =>
         exists u, q, qEnd, v, end ::
           TwoKeys(p, data, path, 0, u, q, qEnd, v, e.pos, end) && IsKey(v) && u.Text? != v.Text?
       case DuplicateMapKey =>
         exists u, q, qEnd, v, end :: NeighbourKeys(p, data, path, u, q, qEnd, v, e.pos, end, true)
       case UnsortedMapKeys =>
         exists u, q, qEnd, v, end :: NeighbourKeys(p, data, path, u, q, qEnd, v, e.pos, end, false)
       case reason =>
         |path| <= p.maxDepth && s.items < p.maxItems && e.pos == s.pos && BytesShow(p, data, s.pos, reason)
  }

  /** Some start the decoder reaches deserves the refusal. */
  ghost predicate Deserved(p: Profile, data: seq<Byte>, e: DecodeError) {
    exists path :: ShownAt(p, data, path, e)
  }

  // ------------------------------------------------------------ heads and strings

  /** Reasons an item shows by its own bytes. */
  predicate OfItsOwn(reason: Reason) {
    && !reason.LimitRelative()
    && reason !in {TrailingBytes, BadMapKeyType, MixedMapKeys, DuplicateMapKey, UnsortedMapKeys}
  }

  /** What the decoder makes of a head, by what it shows. */
  lemma HeadVerdict(data: seq<Byte>, pos: nat)
    requires pos < |data|
    ensures ReadArg(data, pos + 1, data[pos] % 32, pos)
         == if !HeadFits(data, pos) then Err(DecodeError(Truncated, pos))
            else if data[pos] % 32 == 31 then Err(DecodeError(IndefiniteLength, pos))
            else if data[pos] % 32 >= 28 then Err(DecodeError(ReservedAdditional, pos))
            else if Minimal(data, pos) then Ok(Argument(HeadArg(data, pos), HeadEnd(data, pos)))
            else Err(DecodeError(NonMinimal, pos))
  {
    if HeadFits(data, pos) && 24 <= data[pos] % 32 < 28 {
      WideHeadVerdict(data, pos);
    } else {
      hide BigEndianValue;
    }
  }

  lemma WideHeadVerdict(data: seq<Byte>, pos: nat)
    requires HeadFits(data, pos) && 24 <= data[pos] % 32 < 28
    ensures ReadArg(data, pos + 1, data[pos] % 32, pos)
         == if Minimal(data, pos) then Ok(Argument(HeadArg(data, pos), HeadEnd(data, pos)))
            else Err(DecodeError(NonMinimal, pos))
  {
    hide BigEndian, BigEndianValue, Power256, ReadArg;
    var width := AnnouncedWidth(data[pos]);
    BigEndianOfValue(data[pos + 1..HeadEnd(data, pos)]);
    LongerFormsAreRefused(data, pos, width, HeadArg(data, pos));
  }

  /** A head that is not minimal, yet all there, announces more than its argument needs. */
  lemma NotMinimalIsLonger(data: seq<Byte>, pos: nat)
    requires HeadFits(data, pos) && data[pos] % 32 < 28
    ensures !Minimal(data, pos) <==> ArgWidth(HeadArg(data, pos)) < AnnouncedWidth(data[pos])
  {
    hide BigEndian, BigEndianValue, Power256;
    Widths();
    if data[pos] % 32 >= 24 {
      BigEndianOfValue(data[pos + 1..HeadEnd(data, pos)]);
    }
  }

  /** What a refused head shows. */
  lemma HeadRefusalShows(p: Profile, data: seq<Byte>, pos: nat)
    requires pos < |data| && data[pos] / 32 < 6
    requires ReadArg(data, pos + 1, data[pos] % 32, pos).Err?
    ensures var e := ReadArg(data, pos + 1, data[pos] % 32, pos).error;
            e.pos == pos && BytesShow(p, data, pos, e.reason) && OfItsOwn(e.reason)
  {
    hide TextAt, ReadArg, HeadArg, ArgWidth, Minimal;
    HeadVerdict(data, pos);
    if HeadFits(data, pos) && data[pos] % 32 < 28 {
      NotMinimalIsLonger(data, pos);
    }
  }

  lemma StringRefusalShows(p: Profile, data: seq<Byte>, pos: nat, a: Argument)
    requires pos < |data| && |data| < INT_LIMIT && data[pos] / 32 in {2, 3}
    requires ReadArg(data, pos + 1, data[pos] % 32, pos) == Ok(a)
    requires TakeBytes(data, a.pos, a.arg, pos).Err?
    ensures TakeBytes(data, a.pos, a.arg, pos) == Err(DecodeError(Truncated, pos))
    ensures BytesShow(p, data, pos, Truncated)
  {
    hide ReadArg, HeadArg, ArgWidth, Minimal;
    HeadVerdict(data, pos);
  }

  lemma TextRefusalShows(p: Profile, data: seq<Byte>, pos: nat, a: Argument)
    requires pos < |data| && data[pos] / 32 == 3
    requires ReadArg(data, pos + 1, data[pos] % 32, pos) == Ok(a)
    requires TakeBytes(data, a.pos, a.arg, pos).Ok?
    requires ValidateText(TakeBytes(data, a.pos, a.arg, pos).value, p.isNfc).Some?
    ensures BytesShow(p, data, pos, TextReason(ValidateText(TakeBytes(data, a.pos, a.arg, pos).value, p.isNfc).value))
  {
    hide ReadArg, HeadArg, ArgWidth, Minimal, ValidUtf8, HasBom;
    HeadVerdict(data, pos);
    assert TextAt(data, pos, TakeBytes(data, a.pos, a.arg, pos).value);
  }

  lemma SimpleRefusalShows(p: Profile, data: seq<Byte>, pos: nat, items: nat)
    requires pos < |data| && data[pos] / 32 == 7 && DecodeSimple(data[pos] % 32, pos, items).Err?
    ensures var e := DecodeSimple(data[pos] % 32, pos, items).error;
            e.pos == pos && BytesShow(p, data, pos, e.reason) && OfItsOwn(e.reason)
  {
  }

  /** An item within the limits whose bytes show a reason is refused for it. */
  lemma ShownIsRefused(p: Profile, data: seq<Byte>, s: Start, depth: nat, reason: Reason)
    requires s.pos <= |data| < INT_LIMIT && depth <= p.maxDepth && s.items < p.maxItems
    requires BytesShow(p, data, s.pos, reason)
    ensures ItemFrom(p, data, s, depth) == Err(DecodeError(reason, s.pos))
  {
    hide DecodeItems, DecodeEntries, ReadArg, ValidUtf8, HasBom, HeadArg, ArgWidth, TextAt;
    var pos := s.pos;
    if pos < |data| && data[pos] / 32 < 6 {
      HeadVerdict(data, pos);
      if reason in {InvalidUtf8, ByteOrderMark, NonNfc} {
        ShownTextIsRefused(p, data, s, depth, reason);
      } else if HeadFits(data, pos) && data[pos] % 32 < 28 {
        NotMinimalIsLonger(data, pos);
      }
    } else if reason in {InvalidUtf8, ByteOrderMark, NonNfc} {
      TextHasHead(p, data, pos, reason);
    }
  }

  lemma TextHasHead(p: Profile, data: seq<Byte>, pos: nat, reason: Reason)
    requires reason in {InvalidUtf8, ByteOrderMark, NonNfc} && BytesShow(p, data, pos, reason)
    ensures pos < |data| && data[pos] / 32 == 3
  {
    hide ValidUtf8, HasBom, HeadArg, ArgWidth;
  }

  lemma ShownTextIsRefused(p: Profile, data: seq<Byte>, s: Start, depth: nat, reason: Reason)
    requires s.pos <= |data| < INT_LIMIT && depth <= p.maxDepth && s.items < p.maxItems
    requires reason in {InvalidUtf8, ByteOrderMark, NonNfc} && BytesShow(p, data, s.pos, reason)
    ensures ItemFrom(p, data, s, depth) == Err(DecodeError(reason, s.pos))
  {
    hide DecodeItems, DecodeEntries, ReadArg, ValidUtf8, HasBom, HeadArg, ArgWidth;
    TextHasHead(p, data, s.pos, reason);
    HeadVerdict(data, s.pos);
  }

  // ----------------------------------------------------------------- keys of a map

  /** What entry `k` adds to the state: its key's value and bytes. */
  lemma EntryAdds(p: Profile, data: seq<Byte>, pos: nat, items: nat, depth: nat, k: nat)
    requires pos <= |data| && DecodeEntries(p, data, pos, items, depth, k + 1).Ok?
    ensures DecodeEntries(p, data, pos, items, depth, k).Ok?
    ensures var front := DecodeEntries(p, data, pos, items, depth, k).value;
            var state := DecodeEntries(p, data, pos, items, depth, k + 1).value.val;
            var key := DecodeItem(p, data, front.pos, front.items, depth);
            && key.Ok? && KeyRefusal(front.val, key.value.val, data[front.pos..key.value.pos]).None?
            && state.prevKey == data[front.pos..key.value.pos]
            && |state.entries| == k + 1 && state.entries[k].key == key.value.val
            && state.entries[..k] == front.val.entries
  {
    hide DecodeItem, KeyRefusal;
  }

  lemma {:induction false} FirstKeyStays(p: Profile, data: seq<Byte>, pos: nat, items: nat, depth: nat, k: nat)
    requires pos <= |data| && k > 0 && DecodeEntries(p, data, pos, items, depth, k).Ok?
    ensures var key := DecodeItem(p, data, pos, items, depth);
            key.Ok? && DecodeEntries(p, data, pos, items, depth, k).value.val.entries[0].key == key.value.val
  {
    hide DecodeItem, DecodeEntry;
    EntryAdds(p, data, pos, items, depth, k - 1);
    if k > 1 {
      FirstKeyStays(p, data, pos, items, depth, k - 1);
      var front, all := DecodeEntries(p, data, pos, items, depth, k - 1).value.val.entries,
                        DecodeEntries(p, data, pos, items, depth, k).value.val.entries;
      assert all[..k - 1][0] == front[0];
    }
  }

  /** The map at a start, opened, with its first `k` entries read. */
  ghost predicate MapOpen(p: Profile, data: seq<Byte>, path: seq<Step>, a: Argument, k: nat, state: Entries) {
    && StartAt(p, data, path).Some? && k < a.arg && a.pos <= |data|
    && var s := StartAt(p, data, path).value;
       && Opened(p, data, s.pos, s.items, |path|, 5) == Some(a)
       && var r := DecodeEntries(p, data, a.pos, s.items + 1, |path| + 1, k);
          r.Ok? && r.value.val == state
  }

  /** A key read earlier, as the state of the loop has it. */
  lemma KeyRead(p: Profile, data: seq<Byte>, pos: nat, items: nat, depth: nat, k: nat, j: nat)
    requires pos <= |data| && j < k && DecodeEntries(p, data, pos, items, depth, k).Ok?
    ensures DecodeEntries(p, data, pos, items, depth, j).Ok?
    ensures var front := DecodeEntries(p, data, pos, items, depth, j).value;
            var state := DecodeEntries(p, data, pos, items, depth, k).value.val;
            var key := DecodeItem(p, data, front.pos, front.items, depth);
            && key.Ok? && state.entries != [] && key.value.val.Text? == state.entries[0].key.Text?
            && (j == 0 ==> state.entries[0].key == key.value.val)
            && (j == k - 1 ==> state.prevKey == data[front.pos..key.value.pos])
  {
    hide DecodeItem, DecodeEntries, KeyRefusal;
    if DecodeEntries(p, data, pos, items, depth, j + 1).Err? {
      EntryRefusalStands(p, data, pos, items, depth, j + 1, k);
    }
    EntryAdds(p, data, pos, items, depth, j);
    FirstKeyStays(p, data, pos, items, depth, k);
    NoEntries(p, data, pos, items, depth);
    if j > 0 {
      var front := DecodeEntries(p, data, pos, items, depth, j).value;
      var key := DecodeItem(p, data, front.pos, front.items, depth).value;
      FirstKeyStays(p, data, pos, items, depth, j);
      AcceptedKeyAgrees(front.val, key.val, data[front.pos..key.pos]);
    }
  }

  /** Behind an open map, the start of a key. */
  lemma KeyStart(p: Profile, data: seq<Byte>, path: seq<Step>, a: Argument, k: nat, state: Entries, j: nat)
    requires MapOpen(p, data, path, a, k, state) && j <= k
    requires DecodeEntries(p, data, a.pos, StartAt(p, data, path).value.items + 1, |path| + 1, j).Ok?
    ensures var front := DecodeEntries(p, data, a.pos, StartAt(p, data, path).value.items + 1, |path| + 1, j).value;
            StartAt(p, data, path + [Key(j)]) == Some(Start(front.pos, front.items))
  {
    hide DecodeItem, DecodeEntries, DecodeItems, KeyRefusal, Opened, StartAt;
    StartBehind(p, data, path, Key(j));
  }

  /** A key read earlier in an open map is an item the decoder reached. */
  lemma EarlierKeyIsThere(
      p: Profile, data: seq<Byte>, path: seq<Step>, a: Argument, k: nat, state: Entries, j: nat)
    returns (u: Value, q: int, qEnd: int)
    requires MapOpen(p, data, path, a, k, state) && j < k
    ensures ItemThere(p, data, path + [Key(j)], u, q, qEnd)
    ensures j == 0 ==> state.entries != [] && state.entries[0].key == u
    ensures j == k - 1 ==> state.prevKey == data[q..qEnd]
    ensures state.entries != [] && u.Text? == state.entries[0].key.Text?
  {
    hide DecodeItem, DecodeEntries, KeyRefusal, Opened, StartAt;
    var s, depth := StartAt(p, data, path).value, |path| + 1;
    KeyRead(p, data, a.pos, s.items + 1, depth, k, j);
    KeyStart(p, data, path, a, k, state, j);
    var front := DecodeEntries(p, data, a.pos, s.items + 1, depth, j).value;
    var key := DecodeItem(p, data, front.pos, front.items, depth).value;
    u, q, qEnd := key.val, front.pos, key.pos;
  }

  lemma AcceptedKeyAgrees(state: Entries, key: Value, bytes: seq<Byte>)
    requires state.entries != [] && KeyRefusal(state, key, bytes).None?
    ensures key.Text? == state.entries[0].key.Text?
  {
  }

  lemma NoEntries(p: Profile, data: seq<Byte>, pos: nat, items: nat, depth: nat)
    requires pos <= |data|
    ensures DecodeEntries(p, data, pos, items, depth, 0) == Ok(Parsed(Entries([], []), pos, items))
  {
  }

  /** A refused key shows its reason at its own start. */
  lemma KeyRefusalShows(p: Profile, data: seq<Byte>, path: seq<Step>, a: Argument, k: nat, state: Entries,
                        v: Value, pos: nat, end: nat)
    requires MapOpen(p, data, path, a, k, state) && ItemThere(p, data, path + [Key(k)], v, pos, end)
    requires |state.entries| == k && KeyRefusal(state, v, data[pos..end]).Some?
    ensures ShownAt(p, data, path + [Key(k)], DecodeError(KeyRefusal(state, v, data[pos..end]).value, pos))
  {
    hide ItemThere, MapOpen, StartAt, HugeHead, BytesShow;
    var at := path + [Key(k)];
    assert at[..|at| - 1] == path && at[|at| - 1] == Key(k);
    ThereIsStart(p, data, at, v, pos, end);
    if k > 0 && IsKey(v) {
      var u, q, qEnd := EarlierKeyIsThere(p, data, path, a, k, state, 0);
      assert EarlierKey(at, 0) == path + [Key(0)];
      assert TwoKeys(p, data, at, 0, u, q, qEnd, v, pos, end);
      var w, r, rEnd := EarlierKeyIsThere(p, data, path, a, k, state, k - 1);
      assert EarlierKey(at, k - 1) == path + [Key(k - 1)];
      assert TwoKeys(p, data, at, k - 1, w, r, rEnd, v, pos, end);
      LessIsTotal(state.prevKey, data[pos..end]);
      ThereIsStart(p, data, path + [Key(k - 1)], w, r, rEnd);
      if v.Text? == state.entries[0].key.Text? && !Less(state.prevKey, data[pos..end]) {
        assert NeighbourKeys(p, data, at, w, r, rEnd, v, pos, end, state.prevKey == data[pos..end]);
      }
    }
  }

  lemma ThereIsStart(p: Profile, data: seq<Byte>, path: seq<Step>, v: Value, pos: int, end: int)
    requires ItemThere(p, data, path, v, pos, end)
    ensures StartAt(p, data, path).Some? && StartAt(p, data, path).value.pos == pos && pos < end <= |data|
  {
  }

  // ------------------------------------------------------- a refusal is deserved

  lemma StartBehind(p: Profile, data: seq<Byte>, path: seq<Step>, step: Step)
    requires StartAt(p, data, path).Some?
    ensures StartAt(p, data, path + [step]) == Child(p, data, StartAt(p, data, path).value, |path|, step)
  {
    assert (path + [step])[..|path|] == path;
  }

  /** An item refused at its own head shows the reason there. */
  lemma HeadShows(p: Profile, data: seq<Byte>, path: seq<Step>)
    requires |data| < INT_LIMIT && StartAt(p, data, path).Some?
    requires var s := StartAt(p, data, path).value;
             && ItemFrom(p, data, s, |path|).Err?
             && Opened(p, data, s.pos, s.items, |path|, 4).None? && Opened(p, data, s.pos, s.items, |path|, 5).None?
    ensures ShownAt(p, data, path, ItemFrom(p, data, StartAt(p, data, path).value, |path|).error)
  {
    hide StartAt, ReadArg, DecodeSimple, TakeBytes, DecodeItems, DecodeEntries, BytesShow, ItemThere, TwoKeys, HugeHead;
    StartIsWithinBounds(p, data, path);
    var s := StartAt(p, data, path).value;
    if |path| <= p.maxDepth && s.items < p.maxItems {
      if s.pos == |data| {
        EndShows(p, data);
      } else {
        ByteHeadShows(p, data, path, s);
      }
    }
  }

  lemma EndShows(p: Profile, data: seq<Byte>)
    ensures BytesShow(p, data, |data|, Truncated)
  {
  }

  lemma TagShows(p: Profile, data: seq<Byte>, pos: nat)
    requires pos < |data| && data[pos] / 32 == 6
    ensures BytesShow(p, data, pos, Tag)
  {
  }

  lemma HugeShows(data: seq<Byte>, pos: nat)
    requires pos < |data| && data[pos] / 32 in {4, 5}
    requires ReadArg(data, pos + 1, data[pos] % 32, pos).Ok?
    requires ReadArg(data, pos + 1, data[pos] % 32, pos).value.arg >= INT_LIMIT
    ensures HugeHead(data, pos,
                     if data[pos] / 32 == 4 then ReadArg(data, pos + 1, data[pos] % 32, pos).value.pos else pos)
  {
    hide ReadArg, HeadArg, ArgWidth, Minimal;
    HeadVerdict(data, pos);
  }

  lemma ByteHeadShows(p: Profile, data: seq<Byte>, path: seq<Step>, s: Start)
    requires |data| < INT_LIMIT && StartAt(p, data, path) == Some(s) && s.pos < |data|
    requires |path| <= p.maxDepth && s.items < p.maxItems
    requires ItemFrom(p, data, s, |path|).Err?
    requires Opened(p, data, s.pos, s.items, |path|, 4).None? && Opened(p, data, s.pos, s.items, |path|, 5).None?
    ensures ShownAt(p, data, path, ItemFrom(p, data, s, |path|).error)
  {
    hide StartAt, ReadArg, DecodeSimple, TakeBytes, DecodeItems, DecodeEntries, BytesShow, ItemThere, TwoKeys, HugeHead;
    var pos, major, ai := s.pos, data[s.pos] / 32, data[s.pos] % 32;
    if major == 7 {
      SimpleRefusalShows(p, data, pos, s.items + 1);
    } else if major == 6 {
      TagShows(p, data, pos);
    } else if ReadArg(data, pos + 1, ai, pos).Err? {
      HeadRefusalShows(p, data, pos);
    } else {
      var a := ReadArg(data, pos + 1, ai, pos).value;
      if major >= 4 {
        HugeShows(data, pos);
      } else if major >= 2 {
        if TakeBytes(data, a.pos, a.arg, pos).Err? {
          StringRefusalShows(p, data, pos, a);
        } else {
          TextRefusalShows(p, data, pos, a);
        }
      }
    }
  }

  /** From any start the decoder refuses at, some start at or behind it shows why. */
  lemma {:induction false} RefusalShows(p: Profile, data: seq<Byte>, path: seq<Step>) returns (at: seq<Step>)
    requires |data| < INT_LIMIT && StartAt(p, data, path).Some?
    requires ItemFrom(p, data, StartAt(p, data, path).value, |path|).Err?
    ensures ShownAt(p, data, at, ItemFrom(p, data, StartAt(p, data, path).value, |path|).error)
    decreases |data| - StartAt(p, data, path).value.pos
  {
    hide StartAt, Opened, DecodeItem, DecodeItems, DecodeEntries, KeyRefusal, ShownAt;
    var s, depth := StartAt(p, data, path).value, |path|;
    if Opened(p, data, s.pos, s.items, depth, 4).Some? {
      var a := Opened(p, data, s.pos, s.items, depth, 4).value;
      OpenedReads(p, data, s, depth, 4);
      var k := FirstRefusedItem(p, data, a.pos, s.items + 1, depth + 1, a.arg);
      StartBehind(p, data, path, Element(k));
      at := RefusalShows(p, data, path + [Element(k)]);
    } else if Opened(p, data, s.pos, s.items, depth, 5).Some? {
      var a := Opened(p, data, s.pos, s.items, depth, 5).value;
      OpenedReads(p, data, s, depth, 5);
      var k := FirstRefusedEntry(p, data, a.pos, s.items + 1, depth + 1, a.arg);
      at := EntryRefusalShows(p, data, path, a, k);
    } else {
      HeadShows(p, data, path);
      at := path;
    }
  }

  lemma {:induction false} EntryRefusalShows(p: Profile, data: seq<Byte>, path: seq<Step>, a: Argument, k: nat)
    returns (at: seq<Step>)
    requires |data| < INT_LIMIT && StartAt(p, data, path).Some? && k < a.arg && a.pos <= |data|
    requires var s := StartAt(p, data, path).value;
             && Opened(p, data, s.pos, s.items, |path|, 5) == Some(a)
             && DecodeEntries(p, data, a.pos, s.items + 1, |path| + 1, k).Ok?
    requires var front := DecodeEntries(p, data, a.pos, StartAt(p, data, path).value.items + 1, |path| + 1, k).value;
             DecodeEntry(p, data, front.pos, front.items, |path| + 1, front.val).Err?
    ensures var front := DecodeEntries(p, data, a.pos, StartAt(p, data, path).value.items + 1, |path| + 1, k).value;
            ShownAt(p, data, at, DecodeEntry(p, data, front.pos, front.items, |path| + 1, front.val).error)
    decreases |data| - StartAt(p, data, path).value.pos, 0
  {
    hide StartAt, Opened, DecodeItem, DecodeItems, DecodeEntries, KeyRefusal, ShownAt;
    var s, depth := StartAt(p, data, path).value, |path| + 1;
    var front := DecodeEntries(p, data, a.pos, s.items + 1, depth, k).value;
    var key := DecodeItem(p, data, front.pos, front.items, depth);
    StartBehind(p, data, path, Key(k));
    StartBehind(p, data, path, Val(k));
    if key.Err? {
      at := RefusalShows(p, data, path + [Key(k)]);
    } else if KeyRefusal(front.val, key.value.val, data[front.pos..key.value.pos]).Some? {
      at := path + [Key(k)];
      KeyRefusalShows(p, data, path, a, k, front.val, key.value.val, front.pos, key.value.pos);
    } else {
      at := RefusalShows(p, data, path + [Val(k)]);
    }
  }

  lemma TrailingShows(p: Profile, data: seq<Byte>)
    requires DecodeItem(p, data, 0, 0, 0).Ok? && Decode(p, data).Err?
    ensures ShownAt(p, data, [], Decode(p, data).error)
  {
    hide DecodeItem;
    var r := DecodeItem(p, data, 0, 0, 0).value;
    assert StartAt(p, data, []) == Some(Start(0, 0));
    assert ItemThere(p, data, [], r.val, 0, r.pos);
  }

  // ---------------------------------------------------- and what is deserved is refused

  /** What is at a path is one item. */
  lemma ThereIsOne(p: Profile, data: seq<Byte>, path: seq<Step>,
                   v: Value, pos: int, end: int, w: Value, pos': int, end': int)
    requires ItemThere(p, data, path, v, pos, end) && ItemThere(p, data, path, w, pos', end')
    ensures v == w && pos == pos' && end == end'
  {
  }

  lemma OpenAt(p: Profile, data: seq<Byte>, path: seq<Step>, k: nat) returns (a: Argument)
    requires StartAt(p, data, path + [Key(k)]).Some?
    ensures StartAt(p, data, path).Some? && k < a.arg && a.pos <= |data|
    ensures var s := StartAt(p, data, path).value;
            && Opened(p, data, s.pos, s.items, |path|, 5) == Some(a)
            && var r := DecodeEntries(p, data, a.pos, s.items + 1, |path| + 1, k);
               r.Ok? && StartAt(p, data, path + [Key(k)]) == Some(Start(r.value.pos, r.value.items))
  {
    hide Opened, DecodeItem, DecodeItems, DecodeEntries, KeyRefusal;
    assert (path + [Key(k)])[..|path|] == path;
    a := Opened(p, data, StartAt(p, data, path).value.pos, StartAt(p, data, path).value.items, |path|, 5).value;
  }

  /** The key at the end of the path shows a refusal, so the map loop refuses it. */
  lemma KeyThereIsRefused(
      p: Profile, data: seq<Byte>, path: seq<Step>, a: Argument, k: nat, state: Entries, e: DecodeError)
    returns (v: Value, end: int)
    requires MapOpen(p, data, path, a, k, state) && |state.entries| == k
    requires ShownAt(p, data, path + [Key(k)], e)
    requires e.reason in {BadMapKeyType, MixedMapKeys, DuplicateMapKey, UnsortedMapKeys}
    ensures ItemThere(p, data, path + [Key(k)], v, e.pos, end)
    ensures KeyRefusal(state, v, data[e.pos..end]) == Some(e.reason)
  {
    hide ItemThere, MapOpen, StartAt, HugeHead, BytesShow;
    var at := path + [Key(k)];
    assert at[..|at| - 1] == path && at[|at| - 1] == Key(k);
    if e.reason == BadMapKeyType {
      v, end :| ItemThere(p, data, at, v, e.pos, end) && !IsKey(v);
      ThereIsStart(p, data, at, v, e.pos, end);
    } else if e.reason == MixedMapKeys {
      var u, q, qEnd;
      u, q, qEnd, v, end :| TwoKeys(p, data, at, 0, u, q, qEnd, v, e.pos, end) && IsKey(v) && u.Text? != v.Text?;
      ThereIsStart(p, data, at, v, e.pos, end);
      var w, r, rEnd := EarlierKeyIsThere(p, data, path, a, k, state, 0);
      ThereIsOne(p, data, path + [Key(0)], u, q, qEnd, w, r, rEnd);
    } else {
      var u, q, qEnd;
      var same := e.reason == DuplicateMapKey;
      u, q, qEnd, v, end :| NeighbourKeys(p, data, at, u, q, qEnd, v, e.pos, end, same);
      ThereIsStart(p, data, at, v, e.pos, end);
      var w, r, rEnd := EarlierKeyIsThere(p, data, path, a, k, state, k - 1);
      ThereIsOne(p, data, path + [Key(k - 1)], u, q, qEnd, w, r, rEnd);
      LessIsTotal(state.prevKey, data[e.pos..end]);
    }
  }

  lemma EntryErrs(p: Profile, data: seq<Byte>, pos: nat, items: nat, depth: nat, k: nat)
    requires pos <= |data| && DecodeEntries(p, data, pos, items, depth, k).Ok?
    requires var front := DecodeEntries(p, data, pos, items, depth, k).value;
             var key := DecodeItem(p, data, front.pos, front.items, depth);
             key.Ok? && KeyRefusal(front.val, key.value.val, data[front.pos..key.value.pos]).Some?
    ensures var front := DecodeEntries(p, data, pos, items, depth, k).value;
            var key := DecodeItem(p, data, front.pos, front.items, depth).value;
            DecodeEntries(p, data, pos, items, depth, k + 1)
            == Err(DecodeError(KeyRefusal(front.val, key.val, data[front.pos..key.pos]).value, front.pos))
  {
    hide DecodeItem, KeyRefusal;
  }

  /** The refusal shown by a key is one the map loop finds. */
  lemma ShownKeyIsRefused(p: Profile, data: seq<Byte>, path: seq<Step>, e: DecodeError)
    requires KeyPath(path) && ShownAt(p, data, path, e)
    requires e.reason in {BadMapKeyType, MixedMapKeys, DuplicateMapKey, UnsortedMapKeys}
    ensures Decode(p, data) == Err(e)
  {
    hide Child, DecodeItem, DecodeItems, DecodeEntries, KeyRefusal, Opened, StartAt, ShownAt;
    var front, k := path[..|path| - 1], path[|path| - 1].k;
    assert path == front + [Key(k)];
    ShownIsStart(p, data, path, e);
    var a := OpenAt(p, data, front, k);
    var s := StartAt(p, data, front).value;
    var state := DecodeEntries(p, data, a.pos, s.items + 1, |path|, k).value.val;
    var v, end := KeyThereIsRefused(p, data, front, a, k, state, e);
    EntryErrs(p, data, a.pos, s.items + 1, |path|, k);
    EntryRefusalStands(p, data, a.pos, s.items + 1, |path|, k + 1, a.arg);
    OpenedReads(p, data, s, |front|, 5);
    ReachedRefusalStands(p, data, front);
  }

  lemma ShownIsStart(p: Profile, data: seq<Byte>, path: seq<Step>, e: DecodeError)
    requires ShownAt(p, data, path, e)
    ensures StartAt(p, data, path).Some?
  {
  }

  /** A start that shows a refusal by itself is refused there. */
  lemma ShownItemIsRefused(p: Profile, data: seq<Byte>, path: seq<Step>, e: DecodeError)
    requires |data| < INT_LIMIT && ShownAt(p, data, path, e)
    requires OfItsOwn(e.reason) || e.reason.LimitRelative()
    ensures ItemFrom(p, data, StartAt(p, data, path).value, |path|) == Err(e)
  {
    hide StartAt, DecodeItems, DecodeEntries, BytesShow, HugeHead, ReadArg, TakeBytes, ValidateText;
    var s := StartAt(p, data, path).value;
    if e.reason == SizeExceeded {
      if s.items != p.maxItems {
        StartIsWithinBounds(p, data, path);
        HugeIsRefused(p, data, s, |path|, e.pos);
      }
    } else if e.reason != DepthExceeded {
      ShownIsRefused(p, data, s, |path|, e.reason);
    }
  }

  lemma HugeIsMinimal(data: seq<Byte>, pos: nat, reported: nat)
    requires HugeHead(data, pos, reported)
    ensures Minimal(data, pos)
  {
    NotMinimalIsLonger(data, pos);
  }

  /** A huge head is refused for its size, wherever the bounds let the decoder look at it. */
  lemma HugeIsRefused(p: Profile, data: seq<Byte>, s: Start, depth: nat, reported: nat)
    requires s.pos <= |data| && HugeHead(data, s.pos, reported)
    requires depth <= p.maxDepth && s.items < p.maxItems
    ensures ItemFrom(p, data, s, depth) == Err(DecodeError(SizeExceeded, reported))
  {
    hide ReadArg, HeadArg, ArgWidth, DecodeItems, DecodeEntries;
    HugeIsMinimal(data, s.pos, reported);
    HeadVerdict(data, s.pos);
  }

  lemma ShownTrailingIsRefused(p: Profile, data: seq<Byte>, e: DecodeError)
    requires e.reason == TrailingBytes && ShownAt(p, data, [], e)
    ensures Decode(p, data) == Err(e)
  {
    hide DecodeItem;
    var v :| ItemThere(p, data, [], v, 0, e.pos);
    assert StartAt(p, data, []) == Some(Start(0, 0));
  }

  // ------------------------------------------------------------- the theorems

  lemma DeservedIsRefused(p: Profile, data: seq<Byte>, e: DecodeError)
    requires |data| < INT_LIMIT && Deserved(p, data, e)
    ensures Decode(p, data) == Err(e)
  {
    hide ShownAt, StartAt, ItemFrom, DecodeItem;
    var path :| ShownAt(p, data, path, e);
    ShownIsStart(p, data, path, e);
    if e.reason in {BadMapKeyType, MixedMapKeys, DuplicateMapKey, UnsortedMapKeys} {
      ShownHasKeyPath(p, data, path, e);
      ShownKeyIsRefused(p, data, path, e);
    } else if e.reason == TrailingBytes {
      ShownAtRoot(p, data, path, e);
      ShownTrailingIsRefused(p, data, e);
    } else {
      ShownItemIsRefused(p, data, path, e);
      ReachedRefusalStands(p, data, path);
    }
  }

  lemma ShownHasKeyPath(p: Profile, data: seq<Byte>, path: seq<Step>, e: DecodeError)
    requires ShownAt(p, data, path, e)
    requires e.reason in {BadMapKeyType, MixedMapKeys, DuplicateMapKey, UnsortedMapKeys}
    ensures KeyPath(path)
  {
    hide ItemThere, StartAt;
  }

  lemma ShownAtRoot(p: Profile, data: seq<Byte>, path: seq<Step>, e: DecodeError)
    requires ShownAt(p, data, path, e) && e.reason == TrailingBytes
    ensures path == []
  {
  }

  lemma RefusalIsDeserved(p: Profile, data: seq<Byte>)
    requires |data| < INT_LIMIT && Decode(p, data).Err?
    ensures Deserved(p, data, Decode(p, data).error)
  {
    hide ShownAt, DecodeItem;
    if DecodeItem(p, data, 0, 0, 0).Err? {
      var at := RefusalShows(p, data, []);
    } else {
      TrailingShows(p, data);
    }
  }

  /**
   The decoder refuses with a reason at a position exactly when a start it reaches shows that
   reason there; so at most one refusal is ever deserved, and none exactly on accepted inputs.
   */
  lemma RefusalsAreDeserved(p: Profile, data: seq<Byte>, e: DecodeError)
    requires |data| < INT_LIMIT
    ensures Decode(p, data) == Err(e) <==> Deserved(p, data, e)
  {
    hide Deserved, Decode;
    if Decode(p, data) == Err(e) {
      RefusalIsDeserved(p, data);
    }
    if Deserved(p, data, e) {
      DeservedIsRefused(p, data, e);
    }
  }
}
