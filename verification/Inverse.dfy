/**
 Byte-exact inverse: what the decoder accepts is exactly what the encoder writes for the
 value it returns, so exactly one byte form of a value is ever accepted.
 */
module Inverse {
  import opened ByteOrder
  import opened Decoding
  import opened Encoding
  import opened EncodingFacts
  import opened Heads
  import opened Results
  import opened Sorting
  import opened Values

  lemma Joined(data: seq<Byte>, a: nat, b: nat, c: nat)
    requires a <= b <= c <= |data|
    ensures data[a..b] + data[b..c] == data[a..c]
  {
  }

  /** Every item the decoder accepts re-encodes to the bytes it was read from. */
  lemma {:induction false} ItemInverse(p: Profile, data: seq<Byte>, pos: nat, items: nat, depth: nat)
    requires pos <= |data| && DecodeItem(p, data, pos, items, depth).Ok?
    ensures var r := DecodeItem(p, data, pos, items, depth).value;
            EncodeValue(p, r.val, depth) == Ok(data[pos..r.pos])
    decreases |data| - pos, 0, 0
  {
    hide ReadArg, Head;
    var r := DecodeItem(p, data, pos, items, depth).value;
    var major, ai := data[pos] / 32, data[pos] % 32;
    if major == 7 {
      assert data[pos..pos + 1] == [data[pos]];
    } else {
      var a := ReadArg(data, pos + 1, ai, pos).value;
      AcceptedHeadIsWritten(data, pos);
      Joined(data, pos, a.pos, r.pos);
      if major == 4 {
        ItemsInverse(p, data, a.pos, items + 1, depth + 1, a.arg);
      } else if major == 5 {
        var pairs := EntriesInverse(p, data, a.pos, items + 1, depth + 1, a.arg);
        MapInverse(p, r.val.entries, depth, pairs);
      }
    }
  }

  lemma {:induction false} ItemsInverse(
      p: Profile, data: seq<Byte>, pos: nat, items: nat, depth: nat, k: nat)
    requires pos <= |data| && DecodeItems(p, data, pos, items, depth, k).Ok?
    ensures var r := DecodeItems(p, data, pos, items, depth, k).value;
            EncodeItems(p, r.val, k, depth) == Ok(data[pos..r.pos])
    decreases |data| - pos, 1, k
  {
    if k == 0 {
      assert data[pos..pos] == [];
    } else {
      var r := DecodeItems(p, data, pos, items, depth, k).value;
      var front := DecodeItems(p, data, pos, items, depth, k - 1).value;
      ItemsInverse(p, data, pos, items, depth, k - 1);
      ItemInverse(p, data, front.pos, front.items, depth);
      assert r.val[..k - 1] == front.val == front.val[..k - 1];
      ItemsPrefix(p, front.val, r.val, k - 1, depth);
      Joined(data, pos, front.pos, r.pos);
    }
  }

  /** The pairs behind an accepted map: in order already, and spelling out its bytes. */
  lemma {:induction false} EntriesInverse(
      p: Profile, data: seq<Byte>, pos: nat, items: nat, depth: nat, k: nat)
    returns (pairs: seq<Pair>)
    requires pos <= |data| && DecodeEntries(p, data, pos, items, depth, k).Ok?
    ensures var r := DecodeEntries(p, data, pos, items, depth, k).value;
            && |pairs| == k && PairsOf(p, r.val.entries, depth, pairs)
            && StrictlySorted(pairs)
            && Concat(pairs, k) == data[pos..r.pos]
            && (k > 0 ==> pairs[k - 1].key == r.val.prevKey)
    decreases |data| - pos, 1, k
  {
    hide DecodeItem, EncodeValue;
    if k == 0 {
      pairs := [];
      assert data[pos..pos] == [];
    } else {
      var front := DecodeEntries(p, data, pos, items, depth, k - 1).value;
      var r := DecodeEntry(p, data, front.pos, front.items, depth, front.val).value;
      var before := EntriesInverse(p, data, pos, items, depth, k - 1);
      var pair := EntryInverse(p, data, front.pos, front.items, depth, front.val);
      pairs := before + [pair];
      ExtendPairs(p, front.val.entries, r.val.entries, depth, before, pair);
      ExtendStrict(before, pair);
      ConcatStep(before, pair);
      Joined(data, pos, front.pos, r.pos);
    }
  }

  lemma {:induction false} EntryInverse(
      p: Profile, data: seq<Byte>, pos: nat, items: nat, depth: nat, state: Entries)
    returns (pair: Pair)
    requires pos <= |data| && DecodeEntry(p, data, pos, items, depth, state).Ok?
    ensures var r := DecodeEntry(p, data, pos, items, depth, state).value;
            && EncodePair(p, r.val.entries[0].key.Text?, r.val.entries[|state.entries|], depth) == Ok(pair)
            && r.val.entries[..|state.entries|] == state.entries
            && pair.key + pair.val == data[pos..r.pos]
            && pair.key == r.val.prevKey
            && (state.entries != [] ==> Less(state.prevKey, pair.key))
    decreases |data| - pos, 0, 1
  {
    var r := DecodeEntry(p, data, pos, items, depth, state).value;
    var key := DecodeItem(p, data, pos, items, depth).value;
    ItemInverse(p, data, pos, items, depth);
    ItemInverse(p, data, key.pos, key.items, depth);
    pair := Keyed(data[pos..key.pos], data[key.pos..r.pos]);
    Joined(data, pos, key.pos, r.pos);
  }

  lemma ExtendPairs(
      p: Profile, short: seq<MapEntry>, long: seq<MapEntry>, depth: nat, before: seq<Pair>, pair: Pair)
    requires |before| == |short| && PairsOf(p, short, depth, before)
    requires |long| == |short| + 1 && long[..|short|] == short
    requires EncodePair(p, long[0].key.Text?, long[|short|], depth) == Ok(pair)
    ensures PairsOf(p, long, depth, before + [pair])
  {
    forall i | 0 <= i < |before| ensures EncodePair(p, long[0].key.Text?, long[i], depth) == Ok(before[i]) {
      assert long[i] == long[..|short|][i] == short[i];
      assert long[0] == long[..|short|][0] == short[0];
    }
  }

  lemma ExtendStrict(before: seq<Pair>, pair: Pair)
    requires StrictlySorted(before)
    requires before != [] ==> Less(before[|before| - 1].key, pair.key)
    ensures StrictlySorted(before + [pair])
  {
    forall i | 0 <= i < |before| ensures Less(before[i].key, pair.key) {
      if i < |before| - 1 {
        LessIsTransitive(before[i].key, before[|before| - 1].key, pair.key);
      }
    }
  }

  /** Pairs in ascending order pass through sorting and the duplicate test unchanged. */
  lemma MapInverse(p: Profile, entries: seq<MapEntry>, depth: nat, pairs: seq<Pair>)
    requires depth <= p.maxDepth
    requires |pairs| == |entries| && PairsOf(p, entries, depth + 1, pairs) && StrictlySorted(pairs)
    ensures EncodeValue(p, Map(entries), depth) == Ok(Head(5, |pairs|) + Concat(pairs, |pairs|))
  {
    MapOfPairs(p, entries, depth, pairs);
    StrictIsDistinct(pairs);
    SortOfSorted(pairs);
    NoDuplicateIsStrict(pairs);
  }

  /** Whatever `Decode` accepts, `Encode` turns back into exactly the same bytes. */
  lemma DecodeThenEncode(p: Profile, data: seq<Byte>)
    requires Decode(p, data).Ok?
    ensures Encode(p, Decode(p, data).value) == Ok(data)
  {
    ItemInverse(p, data, 0, 0, 0);
    assert data[0..|data|] == data;
  }

  /** No two accepted byte strings decode to the same value. */
  lemma OneByteForm(p: Profile, a: seq<Byte>, b: seq<Byte>)
    requires Decode(p, a).Ok? && Decode(p, b).Ok?
    ensures Decode(p, a) == Decode(p, b) <==> a == b
  {
    DecodeThenEncode(p, a);
    DecodeThenEncode(p, b);
  }
}
