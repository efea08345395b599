/**
 The limit refusal no limit explains: a count in the bytes that no native int holds
 (cbor/decode.go:167-187). It is final under every bound, and nothing else is.
 */
module HugeCounts {
  import opened ByteOrder
  import opened DecodeRefusals
  import opened Decoding
  import opened Errors
  import opened Heads
  import opened Limits
  import opened Reach
  import opened Results
  import opened Shifts
  import opened Values

  predicate LimitRefused(p: Profile, data: seq<Byte>) {
    Decode(p, data).Err? && Decode(p, data).error.reason.LimitRelative()
  }

  /** The decoder reaches an item start with an array or map head whose count is 2^63 or more. */
  ghost predicate ReachesHuge(p: Profile, data: seq<Byte>) {
    exists path, reported :: HugeThere(p, data, path, reported)
  }

  ghost predicate HugeThere(p: Profile, data: seq<Byte>, path: seq<Step>, reported: nat) {
    StartAt(p, data, path).Some? && HugeHead(data, StartAt(p, data, path).value.pos, reported)
  }

  /** The decoder looks at the head of the start: its depth and item count are within bounds. */
  predicate LooksAt(p: Profile, data: seq<Byte>, path: seq<Step>)
    requires StartAt(p, data, path).Some?
  {
    |path| <= p.maxDepth && StartAt(p, data, path).value.items < p.maxItems
  }

  /** Once looked at, a huge count is the verdict under these bounds and all larger ones. */
  lemma HugeCountIsFinal(p: Profile, q: Profile, data: seq<Byte>, path: seq<Step>, reported: nat)
    requires Wider(p, q) && HugeThere(p, data, path, reported) && LooksAt(p, data, path)
    ensures Decode(q, data) == Decode(p, data) == Err(DecodeError(SizeExceeded, reported))
  {
    hide StartAt, ItemFrom, HugeHead, Decode;
    StartKeeps(p, q, data, path);
    HugeIsRefused(p, data, StartAt(p, data, path).value, |path|, reported);
    HugeIsRefused(q, data, StartAt(p, data, path).value, |path|, reported);
    ReachedRefusalStands(p, data, path);
    ReachedRefusalStands(q, data, path);
  }

  /** Bounds no input of this length comes up to. */
  ghost predicate Generous(p: Profile, data: seq<Byte>) {
    p.maxDepth >= |data| && p.maxItems > |data|
  }

  /** Under generous bounds a limit refusal is a huge count that was looked at. */
  lemma GenerousLimitIsHuge(p: Profile, data: seq<Byte>) returns (path: seq<Step>, reported: nat)
    requires |data| < INT_LIMIT && Generous(p, data) && LimitRefused(p, data)
    ensures HugeThere(p, data, path, reported) && LooksAt(p, data, path)
  {
    hide StartAt, HugeHead, Decode;
    RefusalIsDeserved(p, data);
    path :| ShownAt(p, data, path, Decode(p, data).error);
    reported := Decode(p, data).error.pos;
    StartIsBounded(p, data, path);
    HugeFits(p, data, path, reported);
  }

  lemma HugeFits(p: Profile, data: seq<Byte>, path: seq<Step>, reported: nat)
    requires Generous(p, data) && StartAt(p, data, path).Some?
    requires HugeHead(data, StartAt(p, data, path).value.pos, reported)
    ensures LooksAt(p, data, path)
  {
    hide StartAt;
    StartIsBounded(p, data, path);
  }

  /** What bounds as large as the input decide is decided for good, refusals included. */
  lemma GenerousBoundsAreFinal(p: Profile, q: Profile, data: seq<Byte>)
    requires |data| < INT_LIMIT && Generous(p, data) && Wider(p, q)
    ensures Decode(q, data) == Decode(p, data)
  {
    hide Decode, HugeThere, LooksAt;
    if LimitRefused(p, data) {
      var path, reported := GenerousLimitIsHuge(p, data);
      HugeCountIsFinal(p, q, data, path, reported);
    } else {
      BoundsDoNotDecide(p, q, data);
    }
  }

  /** No larger bounds lift the refusal. */
  ghost predicate NeverLifted(p: Profile, data: seq<Byte>) {
    forall q :: Wider(p, q) ==> LimitRefused(q, data)
  }

  /** The bounds of `p`, or those of `q` where they are larger, and one more. */
  function Beyond(p: Profile, q: Profile): Profile {
    Profile(p.maxDepth + q.maxDepth + 1, p.maxItems + q.maxItems + 1, p.isNfc)
  }

  /** A huge count reached under some bounds refuses for a limit under all the others. */
  lemma HugeRefusesAll(p: Profile, q: Profile, data: seq<Byte>)
    requires p.isNfc == q.isNfc && ReachesHuge(q, data)
    ensures LimitRefused(p, data)
  {
    hide Decode, StartAt, HugeHead;
    var path, reported :| HugeThere(q, data, path, reported);
    var w := Beyond(q, p);
    StartKeeps(q, w, data, path);
    StartIsWithinBounds(q, data, path);
    HugeCountIsFinal(w, w, data, path, reported);
    if !LimitRefused(p, data) {
      BoundsDoNotDecide(p, w, data);
    }
  }

  /** Bounds larger than those of `p`, and than the input comes up to. */
  function PastInput(p: Profile, data: seq<Byte>): Profile {
    Profile(p.maxDepth + |data|, p.maxItems + |data| + 1, p.isNfc)
  }

  /**
   A limit refusal is lifted by no larger bounds exactly when the decoder, under bounds past the
   input, reaches an array or map that counts past a native int; no other bounds need a look.
   */
  lemma NeverLiftedExactly(p: Profile, data: seq<Byte>)
    requires |data| < INT_LIMIT
    ensures NeverLifted(p, data) <==> ReachesHuge(PastInput(p, data), data)
    ensures ReachesHuge(PastInput(p, data), data) <==> exists q :: Wider(p, q) && ReachesHuge(q, data)
  {
    hide LimitRefused, ReachesHuge;
    assert Wider(p, PastInput(p, data));
    if NeverLifted(p, data) {
      GenerousReachesHuge(PastInput(p, data), data);
    }
    if q :| Wider(p, q) && ReachesHuge(q, data) {
      forall r | Wider(p, r) ensures LimitRefused(r, data) {
        HugeRefusesAll(r, q, data);
      }
    }
  }

  lemma GenerousReachesHuge(p: Profile, data: seq<Byte>)
    requires |data| < INT_LIMIT && Generous(p, data) && LimitRefused(p, data)
    ensures ReachesHuge(p, data)
  {
    hide LimitRefused, HugeThere, LooksAt;
    var path, reported := GenerousLimitIsHuge(p, data);
  }

  /** For one, nine bytes that open an array or a map of 2^63 are refused under every item bound. */
  lemma NineBytesAreRefused(p: Profile)
    requires p.maxItems >= 1
    ensures Decode(p, [0x9b, 0x80, 0, 0, 0, 0, 0, 0, 0]) == Err(DecodeError(SizeExceeded, 9))
    ensures Decode(p, [0xbb, 0x80, 0, 0, 0, 0, 0, 0, 0]) == Err(DecodeError(SizeExceeded, 0))
  {
    hide Decode;
    OpensHuge(p, 4, [0x9b, 0x80, 0, 0, 0, 0, 0, 0, 0]);
    OpensHuge(p, 5, [0xbb, 0x80, 0, 0, 0, 0, 0, 0, 0]);
  }

  lemma OpensHuge(p: Profile, major: nat, data: seq<Byte>)
    requires p.maxItems >= 1 && major in {4, 5}
    requires data == [major * 32 + 27, 0x80, 0, 0, 0, 0, 0, 0, 0]
    ensures Decode(p, data) == Err(DecodeError(SizeExceeded, if major == 4 then 9 else 0))
  {
    hide Decode, BigEndianValue;
    assert data[1..9] == [0x80, 0, 0, 0, 0, 0, 0, 0];
    TwoToThe63();
    assert StartAt(p, data, []) == Some(Start(0, 0));
    assert HugeHead(data, 0, if major == 4 then 9 else 0);
    HugeCountIsFinal(p, p, data, [], if major == 4 then 9 else 0);
  }

  lemma TwoToThe63()
    ensures BigEndianValue([0x80, 0, 0, 0, 0, 0, 0, 0]) == INT_LIMIT
  {
    hide BigEndian, BigEndianValue, Power256;
    ShiftEightBytes(INT_LIMIT);
    Widths();
    ValueOfBigEndian(INT_LIMIT, 8);
  }
}
