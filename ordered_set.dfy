/** Duplicate-free sequences kept in first-insertion order: the expression
    `sorted(set(words), key=words.index)` (lines 255, 274, 292, 331) and the sets that the
    helper functions fill one element at a time. */
module OrderedSet {

  predicate NoDup<T(==,!new)>(s: seq<T>) {
    forall i, j :: 0 <= i < j < |s| ==> s[i] != s[j]
  }

  /** set.add on an insertion-ordered set. */
  function Insert<T(==,!new)>(s: seq<T>, x: T): seq<T> {
    if x in s then s else s + [x]
  }

  /** Adds the elements of `xs` one after the other. */
  function InsertAll<T(==,!new)>(s: seq<T>, xs: seq<T>): (r: seq<T>)
    ensures NoDup(s) ==> NoDup(r)
    ensures forall x :: x in r <==> x in s || x in xs
    ensures |s| <= |r| && r[..|s|] == s
    decreases |xs|
  {
    if xs == [] then s
    else
      var r := InsertAll(s, xs[..|xs| - 1]);
      assert forall x :: x in xs <==> x in xs[..|xs| - 1] || x == xs[|xs| - 1] by {
        assert xs == xs[..|xs| - 1] + [xs[|xs| - 1]];
      }
      Insert(r, xs[|xs| - 1])
  }

  /** The distinct elements of `xs` in the order they first occur. */
  function Dedup<T(==,!new)>(xs: seq<T>): (r: seq<T>)
    ensures NoDup(r)
    ensures forall x :: x in r <==> x in xs
  {
    InsertAll([], xs)
  }

  /** Adding one more element inserts it into the result. */
  lemma InsertAllSnoc<T(!new)>(s: seq<T>, xs: seq<T>, x: T)
    ensures InsertAll(s, xs + [x]) == Insert(InsertAll(s, xs), x)
  {
    assert (xs + [x])[..|xs|] == xs;
  }

  /** Adding one element at the end of the input inserts it into the result. */
  lemma DedupSnoc<T(!new)>(xs: seq<T>, x: T)
    ensures Dedup(xs + [x]) == Insert(Dedup(xs), x)
  {
    InsertAllSnoc([], xs, x);
  }

  /** list.index: the position of the first occurrence of `x`. */
  function IndexOf<T(==,!new)>(xs: seq<T>, x: T): (i: nat)
    requires x in xs
    ensures i < |xs| && xs[i] == x && forall j :: 0 <= j < i ==> xs[j] != x
  {
    if xs[0] == x then 0 else 1 + IndexOf(xs[1..], x)
  }

  /** `r` lists elements of `xs` by increasing first position in `xs`: sorted with key=xs.index. */
  ghost predicate SortedByFirstIndex<T(!new)>(r: seq<T>, xs: seq<T>) {
    forall i, j :: 0 <= i < j < |r| ==> r[i] in xs && r[j] in xs && IndexOf(xs, r[i]) < IndexOf(xs, r[j])
  }

  /** Dedup lists the distinct words by their first occurrence, as sorting with key=words.index does. */
  lemma {:induction false} DedupSortedByFirstIndex<T(!new)>(xs: seq<T>)
    ensures SortedByFirstIndex(Dedup(xs), xs)
  {
    if xs != [] {
      var p, x := xs[..|xs| - 1], xs[|xs| - 1];
      assert xs == p + [x];
      DedupSortedByFirstIndex(p);
      DedupSnoc(p, x);
      var d := Dedup(p);
      forall y | y in p
        ensures IndexOf(xs, y) == IndexOf(p, y)
      {
        var k := IndexOf(p, y);
        assert xs[k] == y;
        assert forall j :: 0 <= j < k ==> xs[j] == p[j];
        IndexOfUnique(xs, y, k);
      }
      if x !in p {
        IndexOfUnique(xs, x, |p|);
      }
    }
  }

  lemma IndexOfUnique<T(!new)>(xs: seq<T>, x: T, k: nat)
    requires k < |xs| && xs[k] == x && forall j :: 0 <= j < k ==> xs[j] != x
    ensures IndexOf(xs, x) == k
  {
  }

  /** The first element of a listing sorted by first index has the least index. */
  lemma HeadHasLeastIndex<T(!new)>(r: seq<T>, xs: seq<T>, y: T)
    requires (forall x :: x in r ==> x in xs) && SortedByFirstIndex(r, xs) && y in r
    ensures IndexOf(xs, r[0]) <= IndexOf(xs, y)
  {
    var k :| 0 <= k < |r| && r[k] == y;
    if k > 0 {
      assert IndexOf(xs, r[0]) < IndexOf(xs, r[k]);
    }
  }

  /** Two duplicate-free listings of the same elements, both sorted by first index in `xs`,
      are equal: sorted(set(xs), key=xs.index) has exactly one possible value. */
  lemma {:induction false} SortedListingUnique<T(!new)>(r1: seq<T>, r2: seq<T>, xs: seq<T>)
    requires NoDup(r1) && NoDup(r2)
    requires forall x :: x in r1 <==> x in r2
    requires forall x :: x in r1 ==> x in xs
    requires SortedByFirstIndex(r1, xs) && SortedByFirstIndex(r2, xs)
    ensures r1 == r2
  {
    assert |r2| > 0 ==> r2[0] in r1;
    assert |r1| > 0 ==> r1[0] in r2;
    if r1 != [] {
      HeadHasLeastIndex(r1, xs, r2[0]);
      HeadHasLeastIndex(r2, xs, r1[0]);
      assert xs[IndexOf(xs, r1[0])] == r2[0];
      var t1, t2 := r1[1..], r2[1..];
      forall x
        ensures x in t1 <==> x in t2
      {
        if x in t1 {
          var a :| 0 <= a < |t1| && t1[a] == x;
          assert r1[a + 1] == x && x != r1[0];
          assert x in r2;
          var b :| 0 <= b < |r2| && r2[b] == x;
          assert b != 0 && t2[b - 1] == x;
        }
        if x in t2 {
          var b :| 0 <= b < |t2| && t2[b] == x;
          assert r2[b + 1] == x && x != r2[0];
          assert x in r1;
          var a :| 0 <= a < |r1| && r1[a] == x;
          assert a != 0 && t1[a - 1] == x;
        }
      }
      SortedListingUnique(t1, t2, xs);
      assert r1 == [r1[0]] + t1 && r2 == [r2[0]] + t2;
    }
  }

  /** The expression `sorted(set(words), key=words.index)` denotes exactly Dedup(words). */
  lemma SortedSetIsDedup<T(!new)>(words: seq<T>, r: seq<T>)
    requires NoDup(r) && (forall x :: x in r <==> x in words) && SortedByFirstIndex(r, words)
    ensures r == Dedup(words)
  {
    DedupSortedByFirstIndex(words);
    SortedListingUnique(r, Dedup(words), words);
  }

  /** A duplicate-free sequence is its own Dedup. */
  lemma {:induction false} DedupOfDistinct<T(!new)>(xs: seq<T>)
    requires NoDup(xs)
    ensures Dedup(xs) == xs
  {
    if xs != [] {
      var p, x := xs[..|xs| - 1], xs[|xs| - 1];
      assert xs == p + [x];
      DedupOfDistinct(p);
      DedupSnoc(p, x);
    }
  }

  /** Removing duplicates twice is the same as removing them once. */
  lemma DedupIdempotent<T(!new)>(xs: seq<T>)
    ensures Dedup(Dedup(xs)) == Dedup(xs)
  {
    DedupOfDistinct(Dedup(xs));
  }
}
