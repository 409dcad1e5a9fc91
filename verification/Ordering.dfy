// Orders and the stable sort the source takes from Go's library (sort.SliceStable and
// sort.Strings), with the facts that pin a sorted sequence down.

module Ordering {

  ghost predicate TotalPreorder<T(!new)>(leq: (T, T) -> bool) {
    && (forall x, y :: leq(x, y) || leq(y, x))
    && (forall x, y, z :: leq(x, y) && leq(y, z) ==> leq(x, z))
  }

  ghost predicate Antisymmetric<T(!new)>(leq: (T, T) -> bool) {
    forall x, y :: leq(x, y) && leq(y, x) ==> x == y
  }

  ghost predicate Sorted<T>(leq: (T, T) -> bool, xs: seq<T>) {
    forall i, j :: 0 <= i < j < |xs| ==> leq(xs[i], xs[j])
  }

  ghost predicate Distinct<T>(xs: seq<T>) {
    forall i, j :: 0 <= i < j < |xs| ==> xs[i] != xs[j]
  }

  lemma DistinctCons<T>(x: T, xs: seq<T>)
    requires Distinct(xs) && x !in xs
    ensures Distinct([x] + xs)
  {
  }

  lemma DistinctSnoc<T>(xs: seq<T>, x: T)
    requires Distinct(xs) && x !in xs
    ensures Distinct(xs + [x])
  {
  }

  function Insert<T>(leq: (T, T) -> bool, x: T, xs: seq<T>): (r: seq<T>)
    ensures |r| == |xs| + 1
  {
    if xs == [] then [x]
    else if leq(x, xs[0]) then [x] + xs
    else [xs[0]] + Insert(leq, x, xs[1..])
  }

  function StableSort<T>(leq: (T, T) -> bool, xs: seq<T>): (r: seq<T>)
    ensures |r| == |xs|
  {
    if xs == [] then [] else Insert(leq, xs[0], StableSort(leq, xs[1..]))
  }

  lemma {:induction false} InsertPermutes<T>(leq: (T, T) -> bool, x: T, xs: seq<T>)
    ensures multiset(Insert(leq, x, xs)) == multiset{x} + multiset(xs)
  {
    if xs != [] {
      assert xs == [xs[0]] + xs[1..];
      InsertPermutes(leq, x, xs[1..]);
    }
  }

  lemma {:induction false} SortPermutes<T>(leq: (T, T) -> bool, xs: seq<T>)
    ensures multiset(StableSort(leq, xs)) == multiset(xs)
  {
    if xs != [] {
      SortPermutes(leq, xs[1..]);
      InsertPermutes(leq, xs[0], StableSort(leq, xs[1..]));
      assert xs == [xs[0]] + xs[1..];
    }
  }

  lemma InSorted<T>(leq: (T, T) -> bool, xs: seq<T>, x: T)
    ensures x in StableSort(leq, xs) <==> x in xs
  {
    SortPermutes(leq, xs);
    assert x in StableSort(leq, xs) <==> x in multiset(StableSort(leq, xs));
    assert x in xs <==> x in multiset(xs);
  }

  lemma {:induction false} InsertSorted<T(!new)>(leq: (T, T) -> bool, x: T, xs: seq<T>)
    requires TotalPreorder(leq) && Sorted(leq, xs)
    ensures Sorted(leq, Insert(leq, x, xs))
  {
    if xs != [] && !leq(x, xs[0]) {
      InsertSorted(leq, x, xs[1..]);
      var r := Insert(leq, x, xs[1..]);
      InsertPermutes(leq, x, xs[1..]);
      forall j | 0 <= j < |r|
        ensures leq(xs[0], r[j])
      {
        assert r[j] in multiset(r);
        assert r[j] == x || r[j] in xs[1..];
      }
    }
  }

  lemma {:induction false} SortSorted<T(!new)>(leq: (T, T) -> bool, xs: seq<T>)
    requires TotalPreorder(leq)
    ensures Sorted(leq, StableSort(leq, xs))
  {
    if xs != [] {
      SortSorted(leq, xs[1..]);
      InsertSorted(leq, xs[0], StableSort(leq, xs[1..]));
    }
  }

  // --- stability ---------------------------------------------------------------

  /** The elements of xs that tie with e, in order. */
  function Ties<T>(leq: (T, T) -> bool, e: T, xs: seq<T>): seq<T> {
    if xs == [] then []
    else (if leq(e, xs[0]) && leq(xs[0], e) then [xs[0]] else []) + Ties(leq, e, xs[1..])
  }

  lemma {:induction false} InsertKeepsTies<T(!new)>(leq: (T, T) -> bool, e: T, x: T, xs: seq<T>)
    requires TotalPreorder(leq)
    ensures Ties(leq, e, Insert(leq, x, xs)) == Ties(leq, e, [x] + xs)
  {
    assert ([x] + xs)[1..] == xs;
    if xs != [] {
      if leq(x, xs[0]) {
      } else {
        var r := Insert(leq, x, xs[1..]);
        assert ([xs[0]] + r)[1..] == r;
        InsertKeepsTies(leq, e, x, xs[1..]);
        assert ([x] + xs[1..])[1..] == xs[1..];
      }
    } else {
      assert [x] + xs == [x];
    }
  }

  /** Elements that tie keep the order they came in. */
  lemma {:induction false} SortStable<T(!new)>(leq: (T, T) -> bool, e: T, xs: seq<T>)
    requires TotalPreorder(leq)
    ensures Ties(leq, e, StableSort(leq, xs)) == Ties(leq, e, xs)
  {
    if xs != [] {
      SortStable(leq, e, xs[1..]);
      var r := StableSort(leq, xs[1..]);
      InsertKeepsTies(leq, e, xs[0], r);
      assert ([xs[0]] + r)[1..] == r;
    }
  }

  lemma {:induction false} SortOfSorted<T>(leq: (T, T) -> bool, xs: seq<T>)
    requires Sorted(leq, xs)
    ensures StableSort(leq, xs) == xs
  {
    if xs != [] {
      assert Sorted(leq, xs[1..]);
      SortOfSorted(leq, xs[1..]);
      if |xs| > 1 {
        assert leq(xs[0], xs[1]);
      }
      assert xs == [xs[0]] + xs[1..];
    }
  }

  // --- uniqueness --------------------------------------------------------------

  ghost predicate NoTies<T(!new)>(leq: (T, T) -> bool, xs: seq<T>) {
    forall x, y :: x in xs && y in xs && leq(x, y) && leq(y, x) ==> x == y
  }

  lemma SortedHeadsAgree<T(!new)>(leq: (T, T) -> bool, xs: seq<T>, ys: seq<T>)
    requires xs != [] && ys != []
    requires Sorted(leq, xs) && Sorted(leq, ys) && multiset(xs) == multiset(ys) && NoTies(leq, xs)
    ensures xs[0] == ys[0]
  {
    assert xs[0] in multiset(ys) && ys[0] in multiset(xs);
    var i :| 0 <= i < |ys| && ys[i] == xs[0];
    var j :| 0 <= j < |xs| && xs[j] == ys[0];
    if i > 0 && j > 0 {
      assert leq(ys[0], ys[i]) && leq(xs[0], xs[j]);
    }
  }

  lemma TailMultiset<T>(xs: seq<T>)
    requires xs != []
    ensures multiset(xs[1..]) == multiset(xs) - multiset{xs[0]}
  {
    assert xs == [xs[0]] + xs[1..];
  }

  lemma SortedTail<T(!new)>(leq: (T, T) -> bool, xs: seq<T>)
    requires xs != [] && Sorted(leq, xs)
    ensures Sorted(leq, xs[1..]) && (NoTies(leq, xs) ==> NoTies(leq, xs[1..]))
  {
  }

  /** A permutation sorted without ties is unique. */
  lemma {:induction false} SortedIsUnique<T(!new)>(leq: (T, T) -> bool, xs: seq<T>, ys: seq<T>)
    requires Sorted(leq, xs) && Sorted(leq, ys) && multiset(xs) == multiset(ys) && NoTies(leq, xs)
    ensures xs == ys
  {
    assert |multiset(ys)| == |ys| && |multiset(xs)| == |xs|;
    if xs != [] {
      SortedHeadsAgree(leq, xs, ys);
      SortedTail(leq, xs);
      SortedTail(leq, ys);
      hide Sorted;
      hide NoTies;
      TailMultiset(xs);
      TailMultiset(ys);
      SortedIsUnique(leq, xs[1..], ys[1..]);
      assert xs == [xs[0]] + xs[1..] && ys == [ys[0]] + ys[1..];
    }
  }

  lemma {:induction false} DistinctMultiset<T>(xs: seq<T>)
    requires Distinct(xs)
    ensures forall x :: multiset(xs)[x] <= 1
  {
    if xs != [] {
      DistinctMultiset(xs[1..]);
      assert xs == [xs[0]] + xs[1..];
      assert xs[0] !in xs[1..];
      assert xs[0] !in multiset(xs[1..]);
    }
  }

  /** Two enumerations of the same elements without repetition are permutations. */
  lemma SameElementsPermute<T>(xs: seq<T>, ys: seq<T>)
    requires Distinct(xs) && Distinct(ys) && (forall x :: x in xs <==> x in ys)
    ensures multiset(xs) == multiset(ys)
  {
    DistinctMultiset(xs);
    DistinctMultiset(ys);
    forall x
      ensures multiset(xs)[x] == multiset(ys)[x]
    {
      assert x in multiset(xs) <==> x in xs;
      assert x in multiset(ys) <==> x in ys;
    }
  }

  lemma PermutationDistinct<T>(xs: seq<T>, ys: seq<T>)
    requires Distinct(xs) && multiset(xs) == multiset(ys)
    ensures Distinct(ys)
  {
    DistinctMultiset(xs);
    forall i, j | 0 <= i < j < |ys|
      ensures ys[i] != ys[j]
    {
      assert ys == ys[..i] + [ys[i]] + ys[i + 1..j] + [ys[j]] + ys[j + 1..];
      assert multiset(ys)[ys[i]] >= if ys[i] == ys[j] then 2 else 1;
    }
  }

  // --- strings -----------------------------------------------------------------

  /** Go compares strings lexicographically. */
  predicate StringLeq(a: string, b: string) {
    if a == [] then true
    else if b == [] then false
    else if a[0] != b[0] then a[0] < b[0]
    else StringLeq(a[1..], b[1..])
  }

  lemma {:induction false} StringLeqTotal(a: string, b: string)
    ensures StringLeq(a, b) || StringLeq(b, a)
    ensures StringLeq(a, b) && StringLeq(b, a) ==> a == b
  {
    if a != [] && b != [] && a[0] == b[0] {
      StringLeqTotal(a[1..], b[1..]);
      assert a == [a[0]] + a[1..] && b == [b[0]] + b[1..];
    }
  }

  lemma {:induction false} StringLeqTransitive(a: string, b: string, c: string)
    requires StringLeq(a, b) && StringLeq(b, c)
    ensures StringLeq(a, c)
  {
    if a != [] && a[0] == b[0] && b[0] == c[0] {
      StringLeqTransitive(a[1..], b[1..], c[1..]);
    }
  }

  lemma StringOrder()
    ensures TotalPreorder(StringLeq) && Antisymmetric(StringLeq)
  {
    forall x, y
      ensures StringLeq(x, y) || StringLeq(y, x)
      ensures StringLeq(x, y) && StringLeq(y, x) ==> x == y
    {
      StringLeqTotal(x, y);
    }
    forall x, y, z | StringLeq(x, y) && StringLeq(y, z)
      ensures StringLeq(x, z)
    {
      StringLeqTransitive(x, y, z);
    }
  }
}
