/**
 The stable sort by encoded key that the encoder applies to a map
 (`sort.SliceStable`, cbor/encode.go:187-189): the array algorithm, the function it
 computes, and the facts that make the result independent of the algorithm.
 */
module Sorting {
  import opened ByteOrder

  datatype Keyed<+T> = Keyed(key: seq<Byte>, val: T)

  /** Places `x` behind every element whose key does not sort after its own. */
  function Insert<T>(s: seq<Keyed<T>>, x: Keyed<T>): (r: seq<Keyed<T>>)
    ensures |r| == |s| + 1
  {
    if s == [] || !Less(x.key, s[|s| - 1].key) then s + [x]
    else Insert(s[..|s| - 1], x) + [s[|s| - 1]]
  }

  function Sort<T>(s: seq<Keyed<T>>): (r: seq<Keyed<T>>)
    ensures |r| == |s|
  {
    if s == [] then [] else Insert(Sort(s[..|s| - 1]), s[|s| - 1])
  }

  ghost predicate Sorted<T>(s: seq<Keyed<T>>) {
    forall i, j :: 0 <= i < j < |s| ==> !Less(s[j].key, s[i].key)
  }

  ghost predicate StrictlySorted<T>(s: seq<Keyed<T>>) {
    forall i, j :: 0 <= i < j < |s| ==> Less(s[i].key, s[j].key)
  }

  ghost predicate DistinctKeys<T>(s: seq<Keyed<T>>) {
    forall i, j :: 0 <= i < j < |s| ==> s[i].key != s[j].key
  }

  lemma {:induction false} InsertKeepsContents<T>(s: seq<Keyed<T>>, x: Keyed<T>)
    ensures multiset(Insert(s, x)) == multiset(s) + multiset{x}
  {
    hide Less;
    if !(s == [] || !Less(x.key, s[|s| - 1].key)) {
      InsertKeepsContents(s[..|s| - 1], x);
      assert s == s[..|s| - 1] + [s[|s| - 1]];
    }
  }

  lemma {:induction false} SortKeepsContents<T>(s: seq<Keyed<T>>)
    ensures multiset(Sort(s)) == multiset(s)
  {
    hide Insert;
    if s != [] {
      SortKeepsContents(s[..|s| - 1]);
      InsertKeepsContents(Sort(s[..|s| - 1]), s[|s| - 1]);
      assert s == s[..|s| - 1] + [s[|s| - 1]];
    }
  }

  /** Every element of a sorted sequence is bounded by `last`, so is the inserted one. */
  lemma {:induction false} InsertBelow<T>(s: seq<Keyed<T>>, x: Keyed<T>, last: seq<Byte>)
    requires forall i :: 0 <= i < |s| ==> !Less(last, s[i].key)
    requires !Less(last, x.key)
    ensures forall i :: 0 <= i <= |s| ==> !Less(last, Insert(s, x)[i].key)
  {
    if !(s == [] || !Less(x.key, s[|s| - 1].key)) {
      InsertBelow(s[..|s| - 1], x, last);
    }
  }

  lemma {:induction false} InsertKeepsSorted<T>(s: seq<Keyed<T>>, x: Keyed<T>)
    requires Sorted(s)
    ensures Sorted(Insert(s, x))
  {
    if s == [] {
    } else if !Less(x.key, s[|s| - 1].key) {
      forall i | 0 <= i < |s| ensures !Less(x.key, s[i].key) {
        if Less(x.key, s[i].key) && i < |s| - 1 {
          NotLessThen(x.key, s[i].key, s[|s| - 1].key);
        }
      }
    } else {
      var last := s[|s| - 1];
      InsertKeepsSorted(s[..|s| - 1], x);
      LessIsTotal(x.key, last.key);
      InsertBelow(s[..|s| - 1], x, last.key);
    }
  }

  /** `a` before `b`, and `b` not after `c`, puts `a` before `c`. */
  lemma NotLessThen(a: seq<Byte>, b: seq<Byte>, c: seq<Byte>)
    requires Less(a, b) && !Less(c, b)
    ensures Less(a, c)
  {
    LessIsTotal(b, c);
    if b != c {
      LessIsTransitive(a, b, c);
    }
  }

  lemma {:induction false} SortIsSorted<T>(s: seq<Keyed<T>>)
    ensures Sorted(Sort(s))
  {
    if s != [] {
      SortIsSorted(s[..|s| - 1]);
      InsertKeepsSorted(Sort(s[..|s| - 1]), s[|s| - 1]);
    }
  }

  lemma {:induction false} SortOfSorted<T>(s: seq<Keyed<T>>)
    requires Sorted(s)
    ensures Sort(s) == s
  {
    if s != [] {
      var front, x := s[..|s| - 1], s[|s| - 1];
      SortOfSorted(front);
      if front != [] {
        assert !Less(s[|s| - 1].key, s[|s| - 2].key);
        assert front[|front| - 1] == s[|s| - 2];
      }
      assert Insert(front, x) == front + [x] == s;
    }
  }

  /** The adjacent-key test of the encoder, on sorted keys, decides distinctness of all keys. */
  ghost predicate AdjacentDistinct<T>(s: seq<Keyed<T>>) {
    forall i :: 1 <= i < |s| ==> s[i - 1].key != s[i].key
  }

  lemma {:induction false} AdjacentMakesStrict<T>(s: seq<Keyed<T>>)
    requires Sorted(s)
    ensures AdjacentDistinct(s) <==> StrictlySorted(s)
  {
    if AdjacentDistinct(s) {
      forall i, j | 0 <= i < j < |s| ensures Less(s[i].key, s[j].key) {
        ChainIsStrict(s, i, j);
      }
    }
    if StrictlySorted(s) {
      forall i | 1 <= i < |s| ensures s[i - 1].key != s[i].key {
        LessIsTotal(s[i - 1].key, s[i].key);
      }
    }
  }

  lemma {:induction false} ChainIsStrict<T>(s: seq<Keyed<T>>, i: nat, j: nat)
    requires Sorted(s) && AdjacentDistinct(s) && i < j < |s|
    ensures Less(s[i].key, s[j].key)
    decreases j - i
  {
    LessIsTotal(s[j - 1].key, s[j].key);
    assert s[j - 1].key != s[j].key;
    if i < j - 1 {
      ChainIsStrict(s, i, j - 1);
      LessIsTransitive(s[i].key, s[j - 1].key, s[j].key);
    }
  }

  lemma StrictIsDistinct<T>(s: seq<Keyed<T>>)
    requires StrictlySorted(s)
    ensures DistinctKeys(s) && Sorted(s)
  {
    forall i, j | 0 <= i < j < |s| ensures s[i].key != s[j].key && !Less(s[j].key, s[i].key) {
      LessIsTotal(s[i].key, s[j].key);
    }
  }

  /** The duplicate test after sorting accepts exactly the inputs with pairwise different keys. */
  lemma {:induction false} DuplicateTestIsExact<T>(s: seq<Keyed<T>>)
    ensures AdjacentDistinct(Sort(s)) <==> DistinctKeys(s)
    ensures DistinctKeys(s) ==> StrictlySorted(Sort(s))
  {
    SortIsSorted(s);
    SortKeepsContents(s);
    AnySortIsTestedAlike(s, Sort(s));
    AdjacentMakesStrict(Sort(s));
  }

  /** Distinctness of keys is a property of the contents, not of their order. */
  lemma {:induction false} DistinctTransfers<T>(s: seq<Keyed<T>>, r: seq<Keyed<T>>)
    requires multiset(s) == multiset(r)
    requires DistinctKeys(s)
    ensures DistinctKeys(r)
  {
    forall i, j | 0 <= i < j < |r| ensures r[i].key != r[j].key {
      if r[i].key == r[j].key {
        assert r[i] in multiset(s) && r[j] in multiset(s);
        var a :| 0 <= a < |s| && s[a] == r[i];
        var b :| 0 <= b < |s| && s[b] == r[j];
        assert a == b;
        TwiceInMultiset(r, i, j);
        OnceInMultiset(s, a);
      }
    }
  }

  lemma TwiceInMultiset<T>(r: seq<Keyed<T>>, i: nat, j: nat)
    requires i < j < |r| && r[i] == r[j]
    ensures multiset(r)[r[i]] >= 2
  {
    assert r == r[..j] + [r[j]] + r[j + 1..];
    assert r[..j][i] == r[j];
    assert r[j] in multiset(r[..j]);
  }

  lemma OnceInMultiset<T>(s: seq<Keyed<T>>, a: nat)
    requires DistinctKeys(s) && a < |s|
    ensures multiset(s)[s[a]] == 1
  {
    assert s == s[..a] + [s[a]] + s[a + 1..];
    assert s[a] !in s[..a] && s[a] !in s[a + 1..];
    assert multiset(s) == multiset(s[..a]) + multiset{s[a]} + multiset(s[a + 1..]);
  }

  lemma DropLastContents<T>(s: seq<T>)
    requires s != []
    ensures multiset(s[..|s| - 1]) == multiset(s) - multiset{s[|s| - 1]}
  {
    assert s == s[..|s| - 1] + [s[|s| - 1]];
  }

  /** The last element of a strictly ascending sequence is fixed by its contents. */
  lemma LastIsGreatest<T>(s: seq<Keyed<T>>, x: Keyed<T>)
    requires StrictlySorted(s) && x in s
    ensures x == s[|s| - 1] || Less(x.key, s[|s| - 1].key)
  {
  }

  lemma LastsAgree<T>(s: seq<Keyed<T>>, r: seq<Keyed<T>>)
    requires StrictlySorted(s) && StrictlySorted(r)
    requires multiset(s) == multiset(r) && s != []
    ensures r != [] && s[|s| - 1] == r[|r| - 1]
  {
    var x := s[|s| - 1];
    assert x in multiset(r);
    assert x in r;
    var y := r[|r| - 1];
    assert y in multiset(s);
    assert y in s;
    LastIsGreatest(s, y);
    LastIsGreatest(r, x);
    LessIsTotal(x.key, y.key);
  }

  lemma SomeContents<T>(r: seq<T>)
    ensures r != [] ==> multiset(r) != multiset{}
  {
    if r != [] {
      assert r[0] in multiset(r);
    }
  }

  /**
   Two strictly ascending sequences with the same contents are the same sequence: any
   sorting algorithm at all produces the encoder's order once keys are distinct.
   */
  lemma {:induction false} StrictOrderIsUnique<T>(s: seq<Keyed<T>>, r: seq<Keyed<T>>)
    requires StrictlySorted(s) && StrictlySorted(r)
    requires multiset(s) == multiset(r)
    ensures s == r
  {
    if s == [] {
      SomeContents(r);
    } else {
      LastsAgree(s, r);
      DropLastContents(s);
      DropLastContents(r);
      StrictOrderIsUnique(s[..|s| - 1], r[..|r| - 1]);
      assert s == s[..|s| - 1] + [s[|s| - 1]];
      assert r == r[..|r| - 1] + [r[|r| - 1]];
    }
  }

  function Image<T, U>(a: seq<T>, f: T -> U): (r: seq<U>)
    ensures |r| == |a|
  {
    seq(|a|, i requires 0 <= i < |a| => f(a[i]))
  }

  lemma DropAtContents<T>(b: seq<T>, j: nat)
    requires j < |b|
    ensures multiset(b[..j] + b[j + 1..]) == multiset(b) - multiset{b[j]}
  {
    assert b == b[..j] + [b[j]] + b[j + 1..];
  }

  lemma ImageDropLast<T, U>(a: seq<T>, f: T -> U)
    requires a != []
    ensures multiset(Image(a, f)) == multiset(Image(a[..|a| - 1], f)) + multiset{f(a[|a| - 1])}
  {
    assert Image(a, f) == Image(a[..|a| - 1], f) + [f(a[|a| - 1])];
  }

  lemma ImageDropAt<T, U>(b: seq<T>, j: nat, f: T -> U)
    requires j < |b|
    ensures multiset(Image(b, f)) == multiset(Image(b[..j] + b[j + 1..], f)) + multiset{f(b[j])}
  {
    var front, back := Image(b[..j], f), Image(b[j + 1..], f);
    assert Image(b, f) == front + [f(b[j])] + back;
    assert Image(b[..j] + b[j + 1..], f) == front + back;
  }

  /** Sequences with the same contents have images with the same contents. */
  lemma {:induction false} ImageContents<T, U>(a: seq<T>, b: seq<T>, f: T -> U)
    requires multiset(a) == multiset(b)
    ensures |a| == |b| && multiset(Image(a, f)) == multiset(Image(b, f))
  {
    SameSize(a, b);
    if a != [] {
      var n := |a| - 1;
      assert a[n] in multiset(b);
      var j :| 0 <= j < |b| && b[j] == a[n];
      var rest := b[..j] + b[j + 1..];
      DropLastContents(a);
      DropAtContents(b, j);
      ImageContents(a[..n], rest, f);
      ImageDropLast(a, f);
      ImageDropAt(b, j, f);
    }
  }

  lemma SameSize<T>(a: seq<T>, b: seq<T>)
    requires multiset(a) == multiset(b)
    ensures |a| == |b|
  {
    assert |multiset(a)| == |a| && |multiset(b)| == |b|;
  }

  lemma {:induction false} AnySortAgrees<T>(s: seq<Keyed<T>>, r: seq<Keyed<T>>)
    requires DistinctKeys(s)
    requires multiset(r) == multiset(s) && Sorted(r)
    ensures r == Sort(s)
  {
    DuplicateTestIsExact(s);
    SortKeepsContents(s);
    DistinctTransfers(s, r);
    AdjacentMakesStrict(r);
    StrictOrderIsUnique(r, Sort(s));
  }

  /** And without that premise it is still refused alike: the neighbour test of every sorted arrangement is exact. */
  lemma AnySortIsTestedAlike<T>(s: seq<Keyed<T>>, r: seq<Keyed<T>>)
    requires multiset(r) == multiset(s) && Sorted(r)
    ensures AdjacentDistinct(r) <==> DistinctKeys(s)
  {
    AdjacentMakesStrict(r);
    if AdjacentDistinct(r) {
      StrictIsDistinct(r);
      DistinctTransfers(r, s);
    }
    if DistinctKeys(s) {
      DistinctTransfers(s, r);
    }
  }

  // ------------------------------------- sequences without repeats, as sets

  ghost predicate NoRepeats<T>(s: seq<T>) {
    forall i, j :: 0 <= i < j < |s| ==> s[i] != s[j]
  }

  lemma OnceEach<T>(s: seq<T>, x: T)
    requires NoRepeats(s)
    ensures multiset(s)[x] == if x in s then 1 else 0
  {
    if x in s {
      var i :| 0 <= i < |s| && s[i] == x;
      assert s == s[..i] + [x] + s[i + 1..];
      assert x !in s[..i] && x !in s[i + 1..];
    }
  }

  lemma SameMembersSameContents<T>(s: seq<T>, r: seq<T>)
    requires NoRepeats(s) && NoRepeats(r)
    requires forall x :: x in s <==> x in r
    ensures multiset(s) == multiset(r)
  {
    forall x ensures multiset(s)[x] == multiset(r)[x] {
      OnceEach(s, x);
      OnceEach(r, x);
    }
  }

  /** Sorting moves payloads by key alone, so payloads related pairwise stay related. */
  ghost predicate Related<T(!new), U(!new)>(s: seq<Keyed<T>>, r: seq<Keyed<U>>, rel: (T, U) -> bool) {
    && |s| == |r|
    && forall i :: 0 <= i < |s| ==> s[i].key == r[i].key && rel(s[i].val, r[i].val)
  }

  lemma {:induction false} InsertRelated<T(!new), U(!new)>(
      s: seq<Keyed<T>>, x: Keyed<T>, r: seq<Keyed<U>>, y: Keyed<U>, rel: (T, U) -> bool)
    requires Related(s, r, rel) && x.key == y.key && rel(x.val, y.val)
    ensures Related(Insert(s, x), Insert(r, y), rel)
  {
    if !(s == [] || !Less(x.key, s[|s| - 1].key)) {
      InsertRelated(s[..|s| - 1], x, r[..|r| - 1], y, rel);
    }
  }

  lemma {:induction false} SortRelated<T(!new), U(!new)>(
      s: seq<Keyed<T>>, r: seq<Keyed<U>>, rel: (T, U) -> bool)
    requires Related(s, r, rel)
    ensures Related(Sort(s), Sort(r), rel)
  {
    if s != [] {
      SortRelated(s[..|s| - 1], r[..|r| - 1], rel);
      InsertRelated(Sort(s[..|s| - 1]), s[|s| - 1], Sort(r[..|r| - 1]), r[|r| - 1], rel);
    }
  }

  /** The place insertion finds: behind everything up to `j`, in front of everything larger. */
  lemma {:induction false} InsertPlace<T>(s: seq<Keyed<T>>, x: Keyed<T>, j: nat)
    requires j <= |s| && (j > 0 ==> !Less(x.key, s[j - 1].key))
    requires forall k :: j <= k < |s| ==> Less(x.key, s[k].key)
    ensures Insert(s, x) == s[..j] + [x] + s[j..]
  {
    if j < |s| {
      var front := s[..|s| - 1];
      InsertPlace(front, x, j);
      assert front[..j] == s[..j] && s[j..] == front[j..] + [s[|s| - 1]];
    } else {
      assert s[..j] == s;
    }
  }

  lemma Stitched<T>(r: seq<Keyed<T>>, s: seq<Keyed<T>>, x: Keyed<T>, j: nat)
    requires j <= |s| && |r| == |s| + 1 && (j > 0 ==> !Less(x.key, s[j - 1].key))
    requires forall k :: j <= k < |s| ==> Less(x.key, s[k].key)
    requires r[j] == x
    requires forall k :: 0 <= k < j ==> r[k] == s[k]
    requires forall k :: j < k <= |s| ==> r[k] == s[k - 1]
    ensures r == Insert(s, x)
  {
    InsertPlace(s, x, j);
  }

  /** Moves the element at `i` down past every larger key in front of it. */
  method InsertInPlace<T>(a: array<Keyed<T>>, i: nat)
    requires i < a.Length
    modifies a
    ensures a[..i + 1] == Insert(old(a[..i]), old(a[i]))
    ensures forall k :: i < k < a.Length ==> a[k] == old(a[k])
  {
    hide Insert, Less;
    ghost var front := a[..i];
    var x := a[i];
    var j := i;
    while j > 0 && Less(x.key, a[j - 1].key)
      invariant 0 <= j <= i
      invariant a[j] == x
      invariant forall k :: 0 <= k < j ==> a[k] == front[k]
      invariant forall k :: j < k <= i ==> a[k] == front[k - 1]
      invariant forall k :: i < k < a.Length ==> a[k] == old(a[k])
      invariant forall k :: j <= k < i ==> Less(x.key, front[k].key)
    {
      a[j], a[j - 1] := a[j - 1], a[j];
      j := j - 1;
    }
    Stitched(a[..i + 1], front, x, j);
  }

  /** Stable insertion sort, in place. */
  method SortStable<T>(a: array<Keyed<T>>)
    modifies a
    ensures a[..] == Sort(old(a[..]))
  {
    ghost var before := a[..];
    var i := 0;
    while i < a.Length
      invariant 0 <= i <= a.Length
      invariant a[..i] == Sort(before[..i])
      invariant forall k :: i <= k < a.Length ==> a[k] == before[k]
    {
      assert before[..i + 1][..i] == before[..i];
      InsertInPlace(a, i);
      i := i + 1;
    }
    assert a[..] == a[..i] && before == before[..i];
  }
}
