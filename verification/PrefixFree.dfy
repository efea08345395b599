/**
 Truncation and extension: an accepted input refuses every strict prefix as truncated and
 every strict extension as trailing bytes, so no accepted input is a prefix of another.
 */
module PrefixFree {
  import opened ByteOrder
  import opened Decoding
  import opened Errors
  import opened Heads
  import opened Results
  import opened TextRules
  import opened Values

  /** Both inputs have the same first `c` bytes. */
  ghost predicate SameTo(a: seq<Byte>, b: seq<Byte>, c: nat) {
    c <= |a| && c <= |b| && a[..c] == b[..c]
  }

  lemma SameSlice(a: seq<Byte>, b: seq<Byte>, c: nat, i: nat, j: nat)
    requires SameTo(a, b, c) && i <= j <= c
    ensures a[i..j] == b[i..j] && (i < c ==> a[i] == b[i])
  {
    assert a[i..j] == a[..c][i..j] && b[i..j] == b[..c][i..j];
    assert i < c ==> a[i] == a[..c][i] && b[i] == b[..c][i];
  }

  lemma ArgAgrees(a: seq<Byte>, b: seq<Byte>, c: nat, pos: nat, ai: nat, headPos: nat)
    requires SameTo(a, b, c) && pos <= c && ai < 32
    requires ReadArg(a, pos, ai, headPos).Ok? && ReadArg(a, pos, ai, headPos).value.pos <= c
    ensures ReadArg(b, pos, ai, headPos) == ReadArg(a, pos, ai, headPos)
  {
    SameSlice(a, b, c, pos, ReadArg(a, pos, ai, headPos).value.pos);
  }

  lemma ArgCut(a: seq<Byte>, c: nat, pos: nat, ai: nat, headPos: nat)
    requires pos <= c <= |a| && ai < 32
    requires ReadArg(a, pos, ai, headPos).Ok? && ReadArg(a, pos, ai, headPos).value.pos > c
    ensures ReadArg(a[..c], pos, ai, headPos) == Err(DecodeError(Truncated, headPos))
  {
  }

  // -------------------------------------- reading no further than the common part

  lemma {:induction false} ItemAgrees(
      p: Profile, a: seq<Byte>, b: seq<Byte>, c: nat, pos: nat, items: nat, depth: nat)
    requires SameTo(a, b, c) && pos <= c
    requires DecodeItem(p, a, pos, items, depth).Ok? && DecodeItem(p, a, pos, items, depth).value.pos <= c
    ensures DecodeItem(p, b, pos, items, depth) == DecodeItem(p, a, pos, items, depth)
    decreases |a| - pos, 0, 0
  {
    hide ReadArg, SameTo, DecodeItems, DecodeEntries, ValidateText;
    var r := DecodeItem(p, a, pos, items, depth).value;
    SameWithin(a, b, c);
    SameSlice(a, b, c, pos, pos);
    var major, ai := a[pos] / 32, a[pos] % 32;
    if major < 6 {
      var arg := ReadArg(a, pos + 1, ai, pos).value;
      if major == 4 {
        ArgAgrees(a, b, c, pos + 1, ai, pos);
        ItemsAgree(p, a, b, c, arg.pos, items + 1, depth + 1, arg.arg);
      } else if major == 5 {
        ArgAgrees(a, b, c, pos + 1, ai, pos);
        EntriesAgree(p, a, b, c, arg.pos, items + 1, depth + 1, arg.arg);
      } else {
        ArgAgrees(a, b, c, pos + 1, ai, pos);
        SameSlice(a, b, c, arg.pos, r.pos);
      }
    }
  }

  lemma SameWithin(a: seq<Byte>, b: seq<Byte>, c: nat)
    requires SameTo(a, b, c)
    ensures c <= |a| && c <= |b|
  {
  }

  lemma {:induction false} ItemsAgree(
      p: Profile, a: seq<Byte>, b: seq<Byte>, c: nat, pos: nat, items: nat, depth: nat, k: nat)
    requires SameTo(a, b, c) && pos <= c
    requires DecodeItems(p, a, pos, items, depth, k).Ok? && DecodeItems(p, a, pos, items, depth, k).value.pos <= c
    ensures DecodeItems(p, b, pos, items, depth, k) == DecodeItems(p, a, pos, items, depth, k)
    decreases |a| - pos, 1, k
  {
    hide DecodeItem;
    if k > 0 {
      var front := DecodeItems(p, a, pos, items, depth, k - 1).value;
      ItemsAgree(p, a, b, c, pos, items, depth, k - 1);
      ItemAgrees(p, a, b, c, front.pos, front.items, depth);
    }
  }

  lemma {:induction false} EntriesAgree(
      p: Profile, a: seq<Byte>, b: seq<Byte>, c: nat, pos: nat, items: nat, depth: nat, k: nat)
    requires SameTo(a, b, c) && pos <= c
    requires DecodeEntries(p, a, pos, items, depth, k).Ok? && DecodeEntries(p, a, pos, items, depth, k).value.pos <= c
    ensures DecodeEntries(p, b, pos, items, depth, k) == DecodeEntries(p, a, pos, items, depth, k)
    decreases |a| - pos, 1, k
  {
    hide DecodeEntry;
    if k > 0 {
      var front := DecodeEntries(p, a, pos, items, depth, k - 1).value;
      EntriesAgree(p, a, b, c, pos, items, depth, k - 1);
      EntryAgrees(p, a, b, c, front.pos, front.items, depth, front.val);
    }
  }

  lemma {:induction false} EntryAgrees(
      p: Profile, a: seq<Byte>, b: seq<Byte>, c: nat, pos: nat, items: nat, depth: nat, state: Entries)
    requires SameTo(a, b, c) && pos <= c
    requires DecodeEntry(p, a, pos, items, depth, state).Ok?
    requires DecodeEntry(p, a, pos, items, depth, state).value.pos <= c
    ensures DecodeEntry(p, b, pos, items, depth, state) == DecodeEntry(p, a, pos, items, depth, state)
    decreases |a| - pos, 0, 1
  {
    hide DecodeItem, KeyRefusal;
    var key := DecodeItem(p, a, pos, items, depth).value;
    ItemAgrees(p, a, b, c, pos, items, depth);
    ItemAgrees(p, a, b, c, key.pos, key.items, depth);
    SameSlice(a, b, c, pos, key.pos);
  }

  // --------------------------------------------------- cut short in the middle

  ghost predicate CutShort<T>(r: Result<T, DecodeError>) {
    r.Err? && r.error.reason == Truncated
  }

  lemma CutIsSame(a: seq<Byte>, c: nat)
    requires c <= |a|
    ensures SameTo(a, a[..c], c)
  {
  }

  lemma {:induction false} ItemCut(p: Profile, a: seq<Byte>, c: nat, pos: nat, items: nat, depth: nat)
    requires pos <= c <= |a|
    requires DecodeItem(p, a, pos, items, depth).Ok? && DecodeItem(p, a, pos, items, depth).value.pos > c
    ensures CutShort(DecodeItem(p, a[..c], pos, items, depth))
    decreases |a| - pos, 0, 0
  {
    hide ReadArg, SameTo, DecodeItems, DecodeEntries, ValidateText;
    CutIsSame(a, c);
    if pos < c {
      SameSlice(a, a[..c], c, pos, pos);
      var major, ai := a[pos] / 32, a[pos] % 32;
      if major < 6 {
        var arg := ReadArg(a, pos + 1, ai, pos).value;
        if arg.pos > c {
          ArgCut(a, c, pos + 1, ai, pos);
        } else {
          ArgAgrees(a, a[..c], c, pos + 1, ai, pos);
          if major == 4 {
            ItemsCut(p, a, c, arg.pos, items + 1, depth + 1, arg.arg);
          } else if major == 5 {
            EntriesCut(p, a, c, arg.pos, items + 1, depth + 1, arg.arg);
          }
        }
      }
    }
  }

  lemma {:induction false} ItemsCut(p: Profile, a: seq<Byte>, c: nat, pos: nat, items: nat, depth: nat, k: nat)
    requires pos <= c <= |a|
    requires DecodeItems(p, a, pos, items, depth, k).Ok? && DecodeItems(p, a, pos, items, depth, k).value.pos > c
    ensures CutShort(DecodeItems(p, a[..c], pos, items, depth, k))
    decreases |a| - pos, 1, k
  {
    hide DecodeItem, SameTo;
    CutIsSame(a, c);
    if k > 0 {
      var front := DecodeItems(p, a, pos, items, depth, k - 1).value;
      if front.pos > c {
        ItemsCut(p, a, c, pos, items, depth, k - 1);
      } else {
        ItemsAgree(p, a, a[..c], c, pos, items, depth, k - 1);
        ItemCut(p, a, c, front.pos, front.items, depth);
      }
    }
  }

  lemma {:induction false} EntriesCut(p: Profile, a: seq<Byte>, c: nat, pos: nat, items: nat, depth: nat, k: nat)
    requires pos <= c <= |a|
    requires DecodeEntries(p, a, pos, items, depth, k).Ok? && DecodeEntries(p, a, pos, items, depth, k).value.pos > c
    ensures CutShort(DecodeEntries(p, a[..c], pos, items, depth, k))
    decreases |a| - pos, 1, k
  {
    hide DecodeEntry, SameTo;
    CutIsSame(a, c);
    if k > 0 {
      var front := DecodeEntries(p, a, pos, items, depth, k - 1).value;
      if front.pos > c {
        EntriesCut(p, a, c, pos, items, depth, k - 1);
      } else {
        EntriesAgree(p, a, a[..c], c, pos, items, depth, k - 1);
        EntryCut(p, a, c, front.pos, front.items, depth, front.val);
      }
    }
  }

  lemma {:induction false} EntryCut(
      p: Profile, a: seq<Byte>, c: nat, pos: nat, items: nat, depth: nat, state: Entries)
    requires pos <= c <= |a|
    requires DecodeEntry(p, a, pos, items, depth, state).Ok?
    requires DecodeEntry(p, a, pos, items, depth, state).value.pos > c
    ensures CutShort(DecodeEntry(p, a[..c], pos, items, depth, state))
    decreases |a| - pos, 0, 1
  {
    hide DecodeItem, KeyRefusal, SameTo;
    CutIsSame(a, c);
    var key := DecodeItem(p, a, pos, items, depth).value;
    if key.pos > c {
      ItemCut(p, a, c, pos, items, depth);
    } else {
      ItemAgrees(p, a, a[..c], c, pos, items, depth);
      SameSlice(a, a[..c], c, pos, key.pos);
      ItemCut(p, a, c, key.pos, key.items, depth);
    }
  }

  // ------------------------------------------------------------- the theorems

  lemma PrefixIsTruncated(p: Profile, data: seq<Byte>, c: nat)
    requires Decode(p, data).Ok? && c < |data|
    ensures Decode(p, data[..c]).Err? && Decode(p, data[..c]).error.reason == Truncated
  {
    ItemCut(p, data, c, 0, 0, 0);
  }

  lemma ExtensionIsTrailing(p: Profile, data: seq<Byte>, more: seq<Byte>)
    requires Decode(p, data).Ok? && more != []
    ensures Decode(p, data + more) == Err(DecodeError(TrailingBytes, |data|))
  {
    assert (data + more)[..|data|] == data[..|data|];
    ItemAgrees(p, data, data + more, |data|, 0, 0, 0);
  }

  lemma AcceptedIsPrefixFree(p: Profile, a: seq<Byte>, b: seq<Byte>)
    requires Decode(p, a).Ok? && Decode(p, b).Ok? && a <= b
    ensures a == b
  {
    assert b[..|a|] == a;
    if |a| < |b| {
      PrefixIsTruncated(p, b, |a|);
    }
  }
}
