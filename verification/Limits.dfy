/**
 Byte-determined results do not depend on the declared limits (cbor/errors.go:11-38): larger
 bounds can only turn a limit refusal into something else.
 */
module Limits {
  import opened ByteOrder
  import opened Decoding
  import opened Encoding
  import opened Errors
  import opened Heads
  import opened Results
  import opened Values

  /** The same text rules, and bounds at least as large. */
  ghost predicate Wider(p: Profile, q: Profile) {
    p.maxDepth <= q.maxDepth && p.maxItems <= q.maxItems && p.isNfc == q.isNfc
  }

  /** A refusal that a change of bounds from `p` to `q` may lift. */
  ghost predicate LimitHit<T>(p: Profile, q: Profile, r: Result<T, DecodeError>) {
    && r.Err?
    && ((r.error.reason == SizeExceeded && p.maxItems != q.maxItems)
        || (r.error.reason == DepthExceeded && p.maxDepth != q.maxDepth))
  }

  lemma {:induction false} ItemKeeps(p: Profile, q: Profile, data: seq<Byte>, pos: nat, items: nat, depth: nat)
    requires pos <= |data| && Wider(p, q)
    requires !LimitHit(p, q, DecodeItem(p, data, pos, items, depth))
    ensures DecodeItem(q, data, pos, items, depth) == DecodeItem(p, data, pos, items, depth)
    decreases |data| - pos, 0, 0
  {
    if depth <= p.maxDepth && items + 1 <= p.maxItems && pos < |data| {
      var major, ai := data[pos] / 32, data[pos] % 32;
      if major == 4 || major == 5 {
        var a := ReadArg(data, pos + 1, ai, pos);
        if a.Ok? && a.value.arg < INT_LIMIT {
          if major == 4 {
            ItemsKeep(p, q, data, a.value.pos, items + 1, depth + 1, a.value.arg);
          } else {
            EntriesKeep(p, q, data, a.value.pos, items + 1, depth + 1, a.value.arg);
          }
        }
      }
    }
  }

  lemma {:induction false} ItemsKeep(
      p: Profile, q: Profile, data: seq<Byte>, pos: nat, items: nat, depth: nat, k: nat)
    requires pos <= |data| && Wider(p, q)
    requires !LimitHit(p, q, DecodeItems(p, data, pos, items, depth, k))
    ensures DecodeItems(q, data, pos, items, depth, k) == DecodeItems(p, data, pos, items, depth, k)
    decreases |data| - pos, 1, k
  {
    if k > 0 {
      ItemsKeep(p, q, data, pos, items, depth, k - 1);
      var front := DecodeItems(p, data, pos, items, depth, k - 1);
      if front.Ok? {
        ItemKeeps(p, q, data, front.value.pos, front.value.items, depth);
      }
    }
  }

  lemma {:induction false} EntriesKeep(
      p: Profile, q: Profile, data: seq<Byte>, pos: nat, items: nat, depth: nat, k: nat)
    requires pos <= |data| && Wider(p, q)
    requires !LimitHit(p, q, DecodeEntries(p, data, pos, items, depth, k))
    ensures DecodeEntries(q, data, pos, items, depth, k) == DecodeEntries(p, data, pos, items, depth, k)
    decreases |data| - pos, 1, k
  {
    if k > 0 {
      EntriesKeep(p, q, data, pos, items, depth, k - 1);
      var front := DecodeEntries(p, data, pos, items, depth, k - 1);
      if front.Ok? {
        EntryKeeps(p, q, data, front.value.pos, front.value.items, depth, front.value.val);
      }
    }
  }

  lemma {:induction false} EntryKeeps(
      p: Profile, q: Profile, data: seq<Byte>, pos: nat, items: nat, depth: nat, state: Entries)
    requires pos <= |data| && Wider(p, q)
    requires !LimitHit(p, q, DecodeEntry(p, data, pos, items, depth, state))
    ensures DecodeEntry(q, data, pos, items, depth, state) == DecodeEntry(p, data, pos, items, depth, state)
    decreases |data| - pos, 0, 1
  {
    ItemKeeps(p, q, data, pos, items, depth);
    var key := DecodeItem(p, data, pos, items, depth);
    if key.Ok? && KeyRefusal(state, key.value.val, data[pos..key.value.pos]).None? {
      ItemKeeps(p, q, data, key.value.pos, key.value.items, depth);
    }
  }

  ghost predicate ByteDetermined(r: Result<Value, DecodeError>) {
    r.Err? ==> !r.error.reason.LimitRelative()
  }

  /**
   Under larger bounds an accepted input keeps its value, and a byte-determined refusal its
   reason and position.
   */
  lemma BoundsDoNotDecide(p: Profile, q: Profile, data: seq<Byte>)
    requires Wider(p, q)
    requires ByteDetermined(Decode(p, data))
    ensures Decode(q, data) == Decode(p, data)
  {
    ItemKeeps(p, q, data, 0, 0, 0);
  }

  /**
   Two decoders with any bounds at all, neither larger than the other, agree on the value or
   on the reason and position, unless one of them names a limit.
   */
  lemma DecodersAgree(p: Profile, q: Profile, data: seq<Byte>)
    requires p.isNfc == q.isNfc
    requires ByteDetermined(Decode(p, data)) && ByteDetermined(Decode(q, data))
    ensures Decode(p, data) == Decode(q, data)
  {
    var wide := Profile(if p.maxDepth < q.maxDepth then q.maxDepth else p.maxDepth,
                        if p.maxItems < q.maxItems then q.maxItems else p.maxItems, p.isNfc);
    BoundsDoNotDecide(p, wide, data);
    BoundsDoNotDecide(q, wide, data);
  }

  /** Only depth can depend on the depth bound, and only size on the item bound. */
  lemma EachBoundDecidesItsOwn(p: Profile, q: Profile, data: seq<Byte>)
    requires Wider(p, q)
    ensures p.maxDepth == q.maxDepth && Decode(p, data) != Decode(q, data)
        ==> Decode(p, data).Err? && Decode(p, data).error.reason == SizeExceeded
    ensures p.maxItems == q.maxItems && Decode(p, data) != Decode(q, data)
        ==> Decode(p, data).Err? && Decode(p, data).error.reason == DepthExceeded
  {
    if !LimitHit(p, q, DecodeItem(p, data, 0, 0, 0)) {
      ItemKeeps(p, q, data, 0, 0, 0);
    }
  }

  // -------------------------------------------------------------- the encoder

  /** A refusal that a larger depth bound may lift. */
  ghost predicate DepthHit<T>(p: Profile, q: Profile, r: Result<T, EncodeError>) {
    r == Err(NestingTooDeep) && p.maxDepth != q.maxDepth
  }

  /**
   The encoder has no item cap, and a larger depth bound changes nothing but a depth refusal:
   every other outcome, bytes or refusal, stays what it was.
   */
  lemma {:induction false} EncodeKeeps(p: Profile, q: Profile, v: Value, depth: nat)
    requires p.maxDepth <= q.maxDepth && p.isNfc == q.isNfc
    requires !DepthHit(p, q, EncodeValue(p, v, depth))
    ensures EncodeValue(q, v, depth) == EncodeValue(p, v, depth)
    decreases v
  {
    match v {
      case Array(items) =>
        if depth <= p.maxDepth {
          ItemsKeepBytes(p, q, items, |items|, depth + 1);
        }
      case Map(entries) =>
        if depth <= p.maxDepth {
          PairsKeepBytes(p, q, entries, |entries|, depth + 1);
        }
      case _ =>
    }
  }

  lemma {:induction false} ItemsKeepBytes(p: Profile, q: Profile, items: seq<Value>, k: nat, depth: nat)
    requires p.maxDepth <= q.maxDepth && p.isNfc == q.isNfc && k <= |items|
    requires !DepthHit(p, q, EncodeItems(p, items, k, depth))
    ensures EncodeItems(q, items, k, depth) == EncodeItems(p, items, k, depth)
    decreases items, k
  {
    if k > 0 {
      ItemsKeepBytes(p, q, items, k - 1, depth);
      if EncodeItems(p, items, k - 1, depth).Ok? {
        EncodeKeeps(p, q, items[k - 1], depth);
      }
    }
  }

  lemma {:induction false} PairsKeepBytes(p: Profile, q: Profile, entries: seq<MapEntry>, k: nat, depth: nat)
    requires p.maxDepth <= q.maxDepth && p.isNfc == q.isNfc && k <= |entries|
    requires !DepthHit(p, q, EncodePairs(p, entries, k, depth))
    ensures EncodePairs(q, entries, k, depth) == EncodePairs(p, entries, k, depth)
    decreases entries, k
  {
    hide EncodeValue;
    if k > 0 {
      var e := entries[k - 1];
      assert e.key < e && e.value < e;
      PairsKeepBytes(p, q, entries, k - 1, depth);
      if EncodePairs(p, entries, k - 1, depth).Ok? && CheckKey(entries[0].key.Text?, e.key).None? {
        EncodeKeeps(p, q, e.key, depth);
        if EncodeValue(p, e.key, depth).Ok? {
          EncodeKeeps(p, q, e.value, depth);
        }
      }
    }
  }
}
