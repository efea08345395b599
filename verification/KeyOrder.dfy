/**
 What ascending bytewise key order means for the keys themselves (cbor/encode.go:186-189):
 integers from 0 up, then from -1 down, and texts by length and then bytes.
 */
module KeyOrder {
  import opened ByteOrder
  import opened Encoding
  import opened EncodingFacts
  import opened Heads
  import opened NormalForm
  import opened Values

  /** Shorter first, then bytewise: the order of RFC 8949, section 4.2.3. */
  predicate LengthFirst(a: seq<Byte>, b: seq<Byte>) {
    |a| < |b| || (|a| == |b| && Less(a, b))
  }

  /** The canonical order stated on values. Integer keys never meet text keys in one map. */
  predicate KeyBefore(a: Value, b: Value) {
    if a.Int? && b.Int? then
      if a.n >= 0 then b.n < 0 || a.n < b.n else b.n < a.n
    else if a.Text? && b.Text? then LengthFirst(a.text, b.text)
    else a.Int?
  }

  lemma IntOrderForward(n: int, m: int)
    requires IntInRange(n) && IntInRange(m) && KeyBefore(Int(n), Int(m))
    ensures Less(IntBytes(n), IntBytes(m))
  {
    if n >= 0 && m >= 0 {
      HeadOrder(0, n, m);
    } else if n >= 0 {
      MajorOrder(0, 1, n, -1 - m, [], []);
      assert Head(0, n) + [] == Head(0, n) && Head(1, -1 - m) + [] == Head(1, -1 - m);
    } else {
      HeadOrder(1, -1 - n, -1 - m);
    }
  }

  lemma TextOrderForward(s: seq<Byte>, t: seq<Byte>)
    requires |s| < UINT64_LIMIT && |t| < UINT64_LIMIT && LengthFirst(s, t)
    ensures Less(TextBytes(s), TextBytes(t))
  {
    if |s| < |t| {
      HeadOrderWithTails(3, |s|, |t|, s, t);
    } else {
      LessAfterPrefix(Head(3, |s|), s, t);
    }
  }

  lemma MixedOrderForward(n: int, t: seq<Byte>)
    requires IntInRange(n)
    ensures Less(IntBytes(n), TextBytes(t))
  {
    var major, arg := if n >= 0 then 0 else 1, if n >= 0 then n else -1 - n;
    MajorOrder(major, 3, arg, |t|, [], t);
    assert Head(major, arg) + [] == IntBytes(n);
  }

  /** A key the codec can carry: an integer in range, or a text whose length fits its head. */
  predicate CarriedKey(a: Value) {
    (a.Int? && IntInRange(a.n)) || (a.Text? && |a.text| < UINT64_LIMIT)
  }

  lemma OrderForward(a: Value, b: Value)
    requires CarriedKey(a) && CarriedKey(b) && KeyBefore(a, b)
    ensures Less(KeyBytes(a), KeyBytes(b))
  {
    if a.Int? && b.Int? {
      IntOrderForward(a.n, b.n);
    } else if a.Text? {
      TextOrderForward(a.text, b.text);
    } else {
      MixedOrderForward(a.n, b.text);
    }
  }

  /** Bytewise order of encoded keys is this order on the keys, in both directions. */
  lemma BytewiseOrderIsKeyOrder(a: Value, b: Value)
    requires CarriedKey(a) && CarriedKey(b)
    ensures Less(KeyBytes(a), KeyBytes(b)) <==> KeyBefore(a, b)
  {
    LessIsTotal(KeyBytes(a), KeyBytes(b));
    if KeyBefore(a, b) {
      OrderForward(a, b);
    } else if a != b {
      if a.Text? && b.Text? {
        LessIsTotal(a.text, b.text);
      }
      OrderForward(b, a);
    }
  }

  /** For text keys the two orders RFC 8949 offers, sections 4.2.1 and 4.2.3, are one. */
  lemma TextOrdersCoincide(s: seq<Byte>, t: seq<Byte>)
    requires |s| < UINT64_LIMIT && |t| < UINT64_LIMIT
    ensures Less(TextBytes(s), TextBytes(t)) <==> LengthFirst(TextBytes(s), TextBytes(t))
  {
    BytewiseOrderIsKeyOrder(Text(s), Text(t));
    if |s| == |t| {
      LessAfterPrefix(Head(3, |s|), s, t);
    } else if |s| < |t| {
      HeadsGrow(3, |s|, |t|);
    } else {
      HeadsGrow(3, |t|, |s|);
    }
  }

  lemma HeadsGrow(major: nat, n: nat, m: nat)
    requires major < 8 && n <= m
    ensures |Head(major, n)| <= |Head(major, m)|
  {
  }

  /** `n` and `m` are keys of opposite sign, the non-negative one with the longer head. */
  predicate LongerAcrossSigns(n: int, m: int) {
    n >= 0 > m && |Head(0, n)| > |Head(1, -1 - m)|
  }

  /**
   For integer keys the two orders are not one. They differ exactly on two keys of opposite
   sign of which the non-negative one has the longer encoding.
   */
  lemma IntegerOrdersDiffer(n: int, m: int)
    requires IntInRange(n) && IntInRange(m)
    ensures (Less(IntBytes(n), IntBytes(m)) <==> LengthFirst(IntBytes(n), IntBytes(m)))
       <==> !LongerAcrossSigns(n, m) && !LongerAcrossSigns(m, n)
  {
    hide Head;
    BytewiseOrderIsKeyOrder(Int(n), Int(m));
    LessIsTotal(IntBytes(n), IntBytes(m));
    if n >= 0 && m >= 0 {
      HeadsGrow(0, if n < m then n else m, if n < m then m else n);
    } else if n < 0 && m < 0 {
      HeadsGrow(1, -1 - if n < m then m else n, -1 - if n < m then n else m);
    }
  }

  /** Thus 24 sorts before -1 although its encoding is longer. */
  lemma TwentyFourBeforeMinusOne()
    ensures Less(IntBytes(24), IntBytes(-1)) && LengthFirst(IntBytes(-1), IntBytes(24))
  {
  }

  /**
   So a map in canonical order is one whose keys ascend as values; and for a map of text keys
   it does not matter which of the two orders canonical is taken to mean.
   */
  lemma CanonicalMapOrder(entries: seq<MapEntry>)
    requires forall i :: 0 <= i < |entries| ==> CarriedKey(entries[i].key)
    ensures AscendingKeys(entries)
       <==> forall i, j :: 0 <= i < j < |entries| ==> KeyBefore(entries[i].key, entries[j].key)
    ensures (forall i :: 0 <= i < |entries| ==> entries[i].key.Text?)
        ==> (AscendingKeys(entries)
        <==> forall i, j :: 0 <= i < j < |entries| ==>
               LengthFirst(KeyBytes(entries[i].key), KeyBytes(entries[j].key)))
  {
    hide Less, KeyBytes, LengthFirst;
    forall i, j | 0 <= i < j < |entries|
      ensures Less(KeyBytes(entries[i].key), KeyBytes(entries[j].key)) <==> KeyBefore(entries[i].key, entries[j].key)
      ensures entries[i].key.Text? && entries[j].key.Text?
          ==> (Less(KeyBytes(entries[i].key), KeyBytes(entries[j].key))
          <==> LengthFirst(KeyBytes(entries[i].key), KeyBytes(entries[j].key)))
    {
      BytewiseOrderIsKeyOrder(entries[i].key, entries[j].key);
      if entries[i].key.Text? && entries[j].key.Text? {
        TextKeyBytes(entries[i].key);
        TextKeyBytes(entries[j].key);
        TextOrdersCoincide(entries[i].key.text, entries[j].key.text);
      }
    }
  }

  lemma TextKeyBytes(key: Value)
    requires key.Text?
    ensures KeyBytes(key) == TextBytes(key.text)
  {
  }
}
