// The order of a folder's children: unsequenced ones alphabetically, sequenced ones
// inserted at their positions; and the renumbering that makes the order explicit.

module FolderOrder {
  import opened Ordering
  import opened Text

  /** What folders are listed by: the sequence number, not positive for none, and the name. */
  datatype Key = Key(seqNo: int, name: string)

  /** Numbered folders first by number, the others by name. */
  predicate KeyLess(a: Key, b: Key) {
    var left, right := a.seqNo > 0, b.seqNo > 0;
    if left && right && a.seqNo != b.seqNo then a.seqNo < b.seqNo
    else if left != right then left
    else !StringLeq(Lower(b.name), Lower(a.name))
  }

  predicate KeyLeq(a: Key, b: Key) {
    !KeyLess(b, a)
  }

  lemma KeyOrder()
    ensures TotalPreorder(KeyLeq)
  {
    forall x, y
      ensures KeyLeq(x, y) || KeyLeq(y, x)
    {
      StringLeqTotal(Lower(x.name), Lower(y.name));
    }
    forall x, y, z | KeyLeq(x, y) && KeyLeq(y, z)
      ensures KeyLeq(x, z)
    {
      StringLeqTotal(Lower(x.name), Lower(y.name));
      StringLeqTotal(Lower(y.name), Lower(z.name));
      if StringLeq(Lower(x.name), Lower(y.name)) && StringLeq(Lower(y.name), Lower(z.name)) {
        StringLeqTransitive(Lower(x.name), Lower(y.name), Lower(z.name));
      }
    }
  }
}

module SiblingOrder {
  import opened Ordering
  import opened Text

  /** A child of the folder being ordered; index is its place among the collection's
      folders or requests. A sequence number that is not positive counts as none. */
  datatype Sibling = Sibling(folder: bool, index: nat, name: string, seqNo: int)

  predicate ByName(a: Sibling, b: Sibling) {
    StringLeq(Lower(a.name), Lower(b.name))
  }

  predicate BySeq(a: Sibling, b: Sibling) {
    a.seqNo <= b.seqNo
  }

  function WithSeq(xs: seq<Sibling>, positive: bool): (r: seq<Sibling>)
    ensures forall s <- r :: s in xs && (s.seqNo > 0) == positive
  {
    if xs == [] then []
    else
      var rest := WithSeq(xs[1..], positive);
      if (xs[0].seqNo > 0) == positive then [xs[0]] + rest else rest
  }

  /** Insert at the position the sequence number asks for, or at the end if that is nearer. */
  function Place(ordered: seq<Sibling>, e: Sibling): (r: seq<Sibling>)
    ensures |r| == |ordered| + 1
  {
    var p := if e.seqNo < 1 then 0 else e.seqNo - 1;
    if p >= |ordered| then ordered + [e] else ordered[..p] + [e] + ordered[p..]
  }

  function PlaceAll(ordered: seq<Sibling>, es: seq<Sibling>): (r: seq<Sibling>)
    ensures |r| == |ordered| + |es|
  {
    if es == [] then ordered else Place(PlaceAll(ordered, es[..|es| - 1]), es[|es| - 1])
  }

  function Sequenced(xs: seq<Sibling>): seq<Sibling> {
    StableSort(BySeq, WithSeq(StableSort(ByName, xs), true))
  }

  function Unsequenced(xs: seq<Sibling>): seq<Sibling> {
    WithSeq(StableSort(ByName, xs), false)
  }

  function Ordered(xs: seq<Sibling>): seq<Sibling> {
    PlaceAll(Unsequenced(xs), Sequenced(xs))
  }

  lemma NameOrder()
    ensures TotalPreorder(ByName) && TotalPreorder(BySeq)
  {
    forall x, y
      ensures ByName(x, y) || ByName(y, x)
    {
      StringLeqTotal(Lower(x.name), Lower(y.name));
    }
    forall x, y, z | ByName(x, y) && ByName(y, z)
      ensures ByName(x, z)
    {
      StringLeqTransitive(Lower(x.name), Lower(y.name), Lower(z.name));
    }
  }

  // --- a permutation --------------------------------------------------------------------

  lemma {:induction false} WithSeqSplits(xs: seq<Sibling>)
    ensures multiset(WithSeq(xs, true)) + multiset(WithSeq(xs, false)) == multiset(xs)
  {
    if xs != [] {
      WithSeqSplits(xs[1..]);
      assert xs == [xs[0]] + xs[1..];
    }
  }

  lemma PlacePermutes(ordered: seq<Sibling>, e: Sibling)
    ensures multiset(Place(ordered, e)) == multiset(ordered) + multiset{e}
  {
    var p := if e.seqNo < 1 then 0 else e.seqNo - 1;
    if p < |ordered| {
      assert ordered == ordered[..p] + ordered[p..];
    }
  }

  lemma {:induction false} PlaceAllPermutes(ordered: seq<Sibling>, es: seq<Sibling>)
    ensures multiset(PlaceAll(ordered, es)) == multiset(ordered) + multiset(es)
    decreases |es|
  {
    if es != [] {
      var n := |es| - 1;
      PlaceAllPermutes(ordered, es[..n]);
      var before := PlaceAll(ordered, es[..n]);
      PlacePermutes(before, es[n]);
      assert PlaceAll(ordered, es) == Place(before, es[n]);
      hide Place;
      hide PlaceAll;
      assert es == es[..n] + [es[n]];
    }
  }

  lemma OrderedPermutes(xs: seq<Sibling>)
    ensures multiset(Ordered(xs)) == multiset(xs) && |Ordered(xs)| == |xs|
  {
    var alphabetical := StableSort(ByName, xs);
    SortPermutes(ByName, xs);
    WithSeqSplits(alphabetical);
    SortPermutes(BySeq, WithSeq(alphabetical, true));
    PlaceAllPermutes(Unsequenced(xs), Sequenced(xs));
    assert |multiset(Ordered(xs))| == |Ordered(xs)| && |multiset(xs)| == |xs|;
  }

  // --- positions ------------------------------------------------------------------------

  ghost predicate Increasing(es: seq<Sibling>) {
    && (forall k :: 0 <= k < |es| ==> es[k].seqNo > 0)
    && (forall j, k :: 0 <= j < k < |es| ==> es[j].seqNo < es[k].seqNo)
  }

  function Min(a: int, b: int): int {
    if a < b then a else b
  }

  ghost predicate InOrder(es: seq<Sibling>) {
    && (forall k :: 0 <= k < |es| ==> es[k].seqNo > 0)
    && (forall j, k :: 0 <= j < k < |es| ==> es[j].seqNo <= es[k].seqNo)
  }

  /** The next one asks for the same position, and the list already reaches it. */
  predicate Pushed(base: nat, es: seq<Sibling>, k: nat)
    requires k < |es|
  {
    k + 1 < |es| && es[k + 1].seqNo == es[k].seqNo && es[k].seqNo - 1 <= base + k
  }

  lemma {:induction false} StaysAt(base: seq<Sibling>, es: seq<Sibling>, k: nat)
    requires InOrder(es) && k < |es| && !Pushed(|base|, es, k)
    ensures 0 <= Min(es[k].seqNo - 1, |base| + k) < |PlaceAll(base, es)|
    ensures PlaceAll(base, es)[Min(es[k].seqNo - 1, |base| + k)] == es[k]
    decreases |es|
  {
    var n := |es| - 1;
    if k < n {
      assert es[..n][k] == es[k] && es[k].seqNo <= es[k + 1].seqNo <= es[n].seqNo;
      StaysAt(base, es[..n], k);
    }
  }

  lemma PlaceMoves(ordered: seq<Sibling>, e: Sibling, i: nat)
    requires i < |ordered| && e.seqNo > 0
    ensures Place(ordered, e)[if e.seqNo - 1 <= i then i + 1 else i] == ordered[i]
  {
  }

  lemma {:induction false} IsPushed(base: seq<Sibling>, es: seq<Sibling>, k: nat) returns (q: nat)
    requires InOrder(es) && k < |es| && Pushed(|base|, es, k)
    ensures es[k].seqNo - 1 < q < |PlaceAll(base, es)| && PlaceAll(base, es)[q] == es[k]
    decreases |es|
  {
    var n := |es| - 1;
    var before := PlaceAll(base, es[..n]);
    var i := es[k].seqNo - 1;
    if k + 1 == n {
      StaysAt(base, es[..n], k);
    } else {
      i := IsPushed(base, es[..n], k);
    }
    PlaceMoves(before, es[n], i);
    assert PlaceAll(base, es) == Place(before, es[n]);
    q := if es[n].seqNo - 1 <= i then i + 1 else i;
    hide Place;
    hide PlaceAll;
  }

  ghost predicate DistinctPositive(xs: seq<Sibling>) {
    forall i, j :: 0 <= i < j < |xs| && xs[i].seqNo > 0 && xs[j].seqNo > 0 ==> xs[i].seqNo != xs[j].seqNo
  }

  lemma {:induction false} DistinctFilter(xs: seq<Sibling>)
    requires DistinctPositive(xs)
    ensures DistinctPositive(WithSeq(xs, true))
  {
    if xs != [] {
      assert DistinctPositive(xs[1..]);
      DistinctFilter(xs[1..]);
      var rest := WithSeq(xs[1..], true);
      forall j | 0 <= j < |rest| && xs[0].seqNo > 0
        ensures rest[j].seqNo != xs[0].seqNo
      {
        assert rest[j] in rest && rest[j] in xs[1..];
        var i :| 0 <= i < |xs[1..]| && xs[1..][i] == rest[j];
        assert xs[i + 1] == rest[j];
      }
    }
  }

  lemma {:induction false} OnceEach(xs: seq<Sibling>, x: Sibling)
    requires DistinctPositive(xs) && x.seqNo > 0
    ensures multiset(xs)[x] <= 1
  {
    if xs != [] {
      assert DistinctPositive(xs[1..]);
      OnceEach(xs[1..], x);
      assert xs == [xs[0]] + xs[1..];
      if x == xs[0] {
        assert forall i :: 0 <= i < |xs[1..]| ==> xs[1..][i] == xs[i + 1] && xs[i + 1].seqNo != x.seqNo;
        assert x !in multiset(xs[1..]);
      }
    }
  }

  lemma PermutedDistinct(xs: seq<Sibling>, ys: seq<Sibling>)
    requires DistinctPositive(xs) && multiset(xs) == multiset(ys)
    ensures DistinctPositive(ys)
  {
    forall i, j | 0 <= i < j < |ys| && ys[i].seqNo > 0 && ys[j].seqNo > 0
      ensures ys[i].seqNo != ys[j].seqNo
    {
      OnceEach(xs, ys[i]);
      assert ys == ys[..i] + [ys[i]] + ys[i + 1..j] + [ys[j]] + ys[j + 1..];
      assert multiset(ys)[ys[i]] >= if ys[i] == ys[j] then 2 else 1;
      assert ys[i] in multiset(xs) && ys[j] in multiset(xs);
      var p :| 0 <= p < |xs| && xs[p] == ys[i];
      var q :| 0 <= q < |xs| && xs[q] == ys[j];
      assert p < q || q < p;
    }
  }

  lemma SequencedIncreases(xs: seq<Sibling>)
    requires DistinctPositive(xs)
    ensures Increasing(Sequenced(xs))
  {
    NameOrder();
    var alphabetical := StableSort(ByName, xs);
    SortPermutes(ByName, xs);
    PermutedDistinct(xs, alphabetical);
    DistinctFilter(alphabetical);
    SortPermutes(BySeq, WithSeq(alphabetical, true));
    PermutedDistinct(WithSeq(alphabetical, true), Sequenced(xs));
    SortSorted(BySeq, WithSeq(alphabetical, true));
    var es := Sequenced(xs);
    forall k | 0 <= k < |es|
      ensures es[k].seqNo > 0
    {
      InSorted(BySeq, WithSeq(alphabetical, true), es[k]);
    }
  }

  /** With distinct positive numbers, the k-th smallest ends at its own position, or right
      behind all the unsequenced and smaller ones when that comes first; no insertion that
      comes later moves it. */
  lemma SequencedPosition(xs: seq<Sibling>, k: nat)
    requires DistinctPositive(xs) && k < |Sequenced(xs)|
    ensures var e := Sequenced(xs)[k];
            var p := Min(e.seqNo - 1, |Unsequenced(xs)| + k);
            0 <= p < |Ordered(xs)| && Ordered(xs)[p] == e
  {
    SequencedIncreases(xs);
    StaysAt(Unsequenced(xs), Sequenced(xs), k);
    hide PlaceAll;
    hide Sequenced;
    hide Unsequenced;
  }

  lemma SequencedInOrder(xs: seq<Sibling>)
    ensures InOrder(Sequenced(xs))
  {
    NameOrder();
    var positive := WithSeq(StableSort(ByName, xs), true);
    SortSorted(BySeq, positive);
    forall k | 0 <= k < |Sequenced(xs)|
      ensures Sequenced(xs)[k].seqNo > 0
    {
      InSorted(BySeq, positive, Sequenced(xs)[k]);
    }
  }

  /** With numbers that may be equal, the k-th smallest ends at that place exactly when the
      next one does not ask for the same place in a list that already reaches it. */
  lemma EqualNumbersPush(xs: seq<Sibling>, k: nat)
    requires Distinct(xs) && k < |Sequenced(xs)|
    ensures var e := Sequenced(xs)[k];
            var p := Min(e.seqNo - 1, |Unsequenced(xs)| + k);
            && 0 <= p < |Ordered(xs)|
            && (Ordered(xs)[p] == e <==> !Pushed(|Unsequenced(xs)|, Sequenced(xs), k))
  {
    SequencedInOrder(xs);
    var base, es := Unsequenced(xs), Sequenced(xs);
    if Pushed(|base|, es, k) {
      var q := IsPushed(base, es, k);
      OrderedPermutes(xs);
      PermutationDistinct(xs, Ordered(xs));
      hide PlaceAll;
      hide Sequenced;
      hide Unsequenced;
    } else {
      StaysAt(base, es, k);
    }
  }

  /** Two children numbered 1 change places. */
  lemma EqualNumbersShift(a: Sibling, b: Sibling)
    requires a.seqNo == b.seqNo == 1 && ByName(a, b)
    ensures Sequenced([a, b]) == [a, b] && Ordered([a, b]) == [b, a]
  {
    AllSequenced([a, b]);
    hide ByName;
    hide WithSeq;
    assert [a, b][1..] == [b];
    assert StableSort(ByName, [a, b]) == [a, b];
    assert StableSort(BySeq, [a, b]) == [a, b];
    hide StableSort;
    assert [a, b][..1] == [a] && [a][..0] == [];
    assert PlaceAll([], [a]) == [a];
  }

  lemma WithSeqCons(x: Sibling, xs: seq<Sibling>, positive: bool)
    ensures WithSeq([x] + xs, positive) == (if (x.seqNo > 0) == positive then [x] else []) + WithSeq(xs, positive)
  {
    assert ([x] + xs)[1..] == xs;
  }

  lemma WithSeqNone(positive: bool)
    ensures WithSeq([], positive) == []
  {
  }

  lemma {:induction false} WithSeqAppend(xs: seq<Sibling>, ys: seq<Sibling>, positive: bool)
    ensures WithSeq(xs + ys, positive) == WithSeq(xs, positive) + WithSeq(ys, positive)
  {
    hide WithSeq;
    if xs == [] {
      WithSeqNone(positive);
      assert xs + ys == ys;
    } else {
      var x, rest := xs[0], xs[1..];
      WithSeqAppend(rest, ys, positive);
      WithSeqCons(x, rest, positive);
      WithSeqCons(x, rest + ys, positive);
      Associates(if (x.seqNo > 0) == positive then [x] else [], WithSeq(rest, positive), WithSeq(ys, positive));
      Associates([x], rest, ys);
      assert xs == [x] + rest;
    }
  }

  lemma Associates<T>(a: seq<T>, b: seq<T>, c: seq<T>)
    ensures a + (b + c) == a + b + c
  {
  }

  lemma {:induction false} WithSeqTwice(xs: seq<Sibling>)
    ensures WithSeq(WithSeq(xs, false), false) == WithSeq(xs, false)
  {
    if xs != [] {
      WithSeqTwice(xs[1..]);
      var rest := WithSeq(xs[1..], false);
      assert ([xs[0]] + rest)[1..] == rest;
    }
  }

  lemma {:induction false} PlaceAllKeepsUnsequenced(base: seq<Sibling>, es: seq<Sibling>)
    requires forall k :: 0 <= k < |es| ==> es[k].seqNo > 0
    ensures WithSeq(PlaceAll(base, es), false) == WithSeq(base, false)
    decreases |es|
  {
    if es != [] {
      var n := |es| - 1;
      PlaceAllKeepsUnsequenced(base, es[..n]);
      var r, e := PlaceAll(base, es[..n]), es[n];
      assert WithSeq([e], false) == [];
      var p := e.seqNo - 1;
      if p >= |r| {
        WithSeqAppend(r, [e], false);
      } else {
        assert r == r[..p] + r[p..];
        WithSeqAppend(r[..p], r[p..], false);
        WithSeqAppend(r[..p] + [e], r[p..], false);
        WithSeqAppend(r[..p], [e], false);
      }
    }
  }

  /** The unsequenced children stay in alphabetical order, ties in their old order. */
  lemma UnsequencedStayAlphabetical(xs: seq<Sibling>)
    ensures WithSeq(Ordered(xs), false) == WithSeq(StableSort(ByName, xs), false)
    ensures var s := StableSort(ByName, xs);
            forall i, j :: 0 <= i < j < |s| ==> StringLeq(Lower(s[i].name), Lower(s[j].name))
  {
    NameOrder();
    SortSorted(ByName, xs);
    var alphabetical := StableSort(ByName, xs);
    forall k | 0 <= k < |Sequenced(xs)|
      ensures Sequenced(xs)[k].seqNo > 0
    {
      InSorted(BySeq, WithSeq(alphabetical, true), Sequenced(xs)[k]);
    }
    PlaceAllKeepsUnsequenced(Unsequenced(xs), Sequenced(xs));
    WithSeqTwice(alphabetical);
  }

  // --- renumbering -------------------------------------------------------------------------

  /** The children are numbered 1..n, in whatever order they are listed. */
  ghost predicate Numbered(xs: seq<Sibling>) {
    DistinctPositive(xs) && forall i :: 0 <= i < |xs| ==> 1 <= xs[i].seqNo <= |xs|
  }

  lemma {:induction false} AllSequenced(xs: seq<Sibling>)
    requires forall i :: 0 <= i < |xs| ==> xs[i].seqNo > 0
    ensures WithSeq(xs, true) == xs && WithSeq(xs, false) == []
  {
    if xs != [] {
      AllSequenced(xs[1..]);
      assert xs == [xs[0]] + xs[1..];
    }
  }

  lemma {:induction false} IncreasingFromBelow(es: seq<Sibling>, k: nat)
    requires Increasing(es) && k < |es|
    ensures es[k].seqNo >= k + 1
  {
    if k > 0 {
      IncreasingFromBelow(es, k - 1);
    }
  }

  lemma {:induction false} IncreasingFromAbove(es: seq<Sibling>, k: nat)
    requires Increasing(es) && k < |es| && forall i :: 0 <= i < |es| ==> es[i].seqNo <= |es|
    ensures es[k].seqNo <= k + 1
    decreases |es| - k
  {
    if k < |es| - 1 {
      IncreasingFromAbove(es, k + 1);
    }
  }

  lemma NumberedParts(xs: seq<Sibling>)
    requires Numbered(xs)
    ensures |Sequenced(xs)| == |xs| && Unsequenced(xs) == []
    ensures forall i :: 0 <= i < |xs| ==> 1 <= Sequenced(xs)[i].seqNo <= |xs|
  {
    var alphabetical := StableSort(ByName, xs);
    forall i | 0 <= i < |alphabetical|
      ensures 1 <= alphabetical[i].seqNo <= |xs|
    {
      InSorted(ByName, xs, alphabetical[i]);
    }
    AllSequenced(alphabetical);
    forall i | 0 <= i < |xs|
      ensures 1 <= Sequenced(xs)[i].seqNo <= |xs|
    {
      InSorted(BySeq, alphabetical, Sequenced(xs)[i]);
    }
  }

  /** Ordering children that are numbered 1..n puts number k+1 at index k, so renumbering
      them again changes nothing. */
  lemma NumberedIsFixed(xs: seq<Sibling>, k: nat)
    requires Numbered(xs) && k < |xs|
    ensures |Ordered(xs)| == |xs| && Ordered(xs)[k].seqNo == k + 1
  {
    NumberedParts(xs);
    SequencedIncreases(xs);
    hide Sequenced;
    hide Unsequenced;
    hide PlaceAll;
    IncreasingFromBelow(Sequenced(xs), k);
    IncreasingFromAbove(Sequenced(xs), k);
    SequencedPosition(xs, k);
  }

  method Partition(xs: seq<Sibling>) returns (withoutSeq: seq<Sibling>, withSeq: seq<Sibling>)
    ensures withoutSeq == WithSeq(xs, false) && withSeq == WithSeq(xs, true)
  {
    withoutSeq, withSeq := [], [];
    for i := 0 to |xs|
      invariant withoutSeq == WithSeq(xs[..i], false)
      invariant withSeq == WithSeq(xs[..i], true)
    {
      assert xs[..i + 1] == xs[..i] + [xs[i]];
      WithSeqAppend(xs[..i], [xs[i]], true);
      WithSeqAppend(xs[..i], [xs[i]], false);
      if xs[i].seqNo > 0 {
        withSeq := withSeq + [xs[i]];
      } else {
        withoutSeq := withoutSeq + [xs[i]];
      }
    }
    assert xs[..|xs|] == xs;
  }

  /** The slice idiom: widen the list by repeating one element, then overwrite it. */
  method InsertAt(ordered: seq<Sibling>, entry: Sibling) returns (r: seq<Sibling>)
    ensures r == Place(ordered, entry)
  {
    var position := entry.seqNo - 1;
    if position < 0 {
      position := 0;
    }
    if position >= |ordered| {
      return ordered + [entry];
    }
    r := ordered[..position + 1] + ordered[position..];
    r := r[position := entry];
  }

  /** Sort, partition, sort and insert, as the source does. */
  method SortSiblings(siblings: seq<Sibling>) returns (ordered: seq<Sibling>)
    ensures ordered == Ordered(siblings)
  {
    var alphabetical := StableSort(ByName, siblings);
    var withoutSeq, withSeq := Partition(alphabetical);
    withSeq := StableSort(BySeq, withSeq);
    ordered := withoutSeq;
    for i := 0 to |withSeq|
      invariant ordered == PlaceAll(withoutSeq, withSeq[..i])
    {
      assert withSeq[..i + 1][..i] == withSeq[..i];
      ordered := InsertAt(ordered, withSeq[i]);
    }
    assert withSeq[..|withSeq|] == withSeq;
  }
}

module Resequencing {
  import opened FolderOrder
  import opened Ordering
  import opened SiblingOrder

  datatype Folder = Folder(name: string, parent: string, displayParent: string, seqNo: int)

  datatype Request = Request(name: string, folder: string, seqNo: int)

  /** The folder whose children are renumbered: its physical and its display path. */
  datatype Parent = Parent(path: string, display: string)

  predicate ChildFolder(f: Folder, p: Parent) {
    f.parent == p.path || f.displayParent == p.display
  }

  predicate ChildRequest(r: Request, p: Parent) {
    r.folder == p.display
  }

  function FolderSiblings(folders: seq<Folder>, p: Parent): seq<Sibling> {
    if folders == [] then [] else
    var n := |folders| - 1;
    FolderSiblings(folders[..n], p) +
      if ChildFolder(folders[n], p) then [Sibling(true, n, folders[n].name, folders[n].seqNo)] else []
  }

  function RequestSiblings(requests: seq<Request>, p: Parent): seq<Sibling> {
    if requests == [] then [] else
    var n := |requests| - 1;
    RequestSiblings(requests[..n], p) +
      if ChildRequest(requests[n], p) then [Sibling(false, n, requests[n].name, requests[n].seqNo)] else []
  }

  function Siblings(folders: seq<Folder>, requests: seq<Request>, p: Parent): seq<Sibling> {
    FolderSiblings(folders, p) + RequestSiblings(requests, p)
  }

  /** Where a folder or request stands in an ordering, or its length. */
  function Rank(ordered: seq<Sibling>, folder: bool, index: nat): (k: nat)
    ensures k <= |ordered|
    ensures k < |ordered| ==> ordered[k].folder == folder && ordered[k].index == index
    ensures forall j :: 0 <= j < k ==> ordered[j].folder != folder || ordered[j].index != index
  {
    if ordered == [] || (ordered[0].folder == folder && ordered[0].index == index) then 0
    else 1 + Rank(ordered[1..], folder, index)
  }

  function Renumbered(ordered: seq<Sibling>, folder: bool, index: nat, seqNo: int): int {
    var k := Rank(ordered, folder, index);
    if k < |ordered| then k + 1 else seqNo
  }

  function RenumberedFolders(folders: seq<Folder>, ordered: seq<Sibling>): (r: seq<Folder>)
    ensures |r| == |folders|
  {
    seq(|folders|, i requires 0 <= i < |folders| =>
      folders[i].(seqNo := Renumbered(ordered, true, i, folders[i].seqNo)))
  }

  function RenumberedRequests(requests: seq<Request>, ordered: seq<Sibling>): (r: seq<Request>)
    ensures |r| == |requests|
  {
    seq(|requests|, i requires 0 <= i < |requests| =>
      requests[i].(seqNo := Renumbered(ordered, false, i, requests[i].seqNo)))
  }

  predicate FolderLeq(a: Folder, b: Folder) {
    KeyLeq(Key(a.seqNo, a.name), Key(b.seqNo, b.name))
  }

  lemma FolderOrdered()
    ensures TotalPreorder(FolderLeq)
  {
    KeyOrder();
    hide KeyLeq;
  }

  /** The collection after one resequencing. */
  function Resequenced(folders: seq<Folder>, requests: seq<Request>, p: Parent): (seq<Folder>, seq<Request>) {
    var siblings := Siblings(folders, requests, p);
    if siblings == [] then (folders, requests)
    else
      var ordered := Ordered(siblings);
      (StableSort(FolderLeq, RenumberedFolders(folders, ordered)), RenumberedRequests(requests, ordered))
  }

  // --- the numbers afterwards ----------------------------------------------------------------

  function Numbers(xs: seq<Sibling>): seq<int> {
    seq(|xs|, i requires 0 <= i < |xs| => xs[i].seqNo)
  }

  lemma {:induction false} FolderSiblingsIndex(folders: seq<Folder>, p: Parent)
    ensures forall k :: 0 <= k < |FolderSiblings(folders, p)| ==>
              var s := FolderSiblings(folders, p)[k];
              s.folder && s.index < |folders| && s == Sibling(true, s.index, folders[s.index].name, folders[s.index].seqNo)
              && ChildFolder(folders[s.index], p)
    ensures forall j, k :: 0 <= j < k < |FolderSiblings(folders, p)| ==>
              FolderSiblings(folders, p)[j].index < FolderSiblings(folders, p)[k].index
    ensures forall i :: 0 <= i < |folders| && ChildFolder(folders[i], p) ==>
              Sibling(true, i, folders[i].name, folders[i].seqNo) in FolderSiblings(folders, p)
  {
    if folders != [] {
      FolderSiblingsIndex(folders[..|folders| - 1], p);
    }
  }

  lemma {:induction false} RequestSiblingsIndex(requests: seq<Request>, p: Parent)
    ensures forall k :: 0 <= k < |RequestSiblings(requests, p)| ==>
              var s := RequestSiblings(requests, p)[k];
              !s.folder && s.index < |requests| && s == Sibling(false, s.index, requests[s.index].name, requests[s.index].seqNo)
              && ChildRequest(requests[s.index], p)
    ensures forall j, k :: 0 <= j < k < |RequestSiblings(requests, p)| ==>
              RequestSiblings(requests, p)[j].index < RequestSiblings(requests, p)[k].index
    ensures forall i :: 0 <= i < |requests| && ChildRequest(requests[i], p) ==>
              Sibling(false, i, requests[i].name, requests[i].seqNo) in RequestSiblings(requests, p)
  {
    if requests != [] {
      RequestSiblingsIndex(requests[..|requests| - 1], p);
    }
  }

  ghost predicate DistinctEntries(xs: seq<Sibling>) {
    forall i, j :: 0 <= i < j < |xs| ==> xs[i].folder != xs[j].folder || xs[i].index != xs[j].index
  }

  lemma SiblingsDistinct(folders: seq<Folder>, requests: seq<Request>, p: Parent)
    ensures DistinctEntries(Siblings(folders, requests, p))
  {
    FolderSiblingsIndex(folders, p);
    RequestSiblingsIndex(requests, p);
  }

  function Relabel(xs: seq<Sibling>, ordered: seq<Sibling>): seq<Sibling> {
    seq(|xs|, i requires 0 <= i < |xs| =>
      xs[i].(seqNo := Renumbered(ordered, xs[i].folder, xs[i].index, xs[i].seqNo)))
  }

  lemma {:induction false} FolderSiblingsRelabel(folders: seq<Folder>, p: Parent, ordered: seq<Sibling>)
    ensures FolderSiblings(RenumberedFolders(folders, ordered), p) == Relabel(FolderSiblings(folders, p), ordered)
  {
    if folders != [] {
      var n := |folders| - 1;
      FolderSiblingsRelabel(folders[..n], p, ordered);
      assert RenumberedFolders(folders, ordered)[..n] == RenumberedFolders(folders[..n], ordered);
    }
  }

  lemma {:induction false} RequestSiblingsRelabel(requests: seq<Request>, p: Parent, ordered: seq<Sibling>)
    ensures RequestSiblings(RenumberedRequests(requests, ordered), p) == Relabel(RequestSiblings(requests, p), ordered)
  {
    if requests != [] {
      var n := |requests| - 1;
      RequestSiblingsRelabel(requests[..n], p, ordered);
      assert RenumberedRequests(requests, ordered)[..n] == RenumberedRequests(requests[..n], ordered);
    }
  }

  /** Renumbering by rank in any permutation numbers the children 1..n. */
  lemma RelabelNumbers(xs: seq<Sibling>, ordered: seq<Sibling>)
    requires DistinctEntries(xs) && multiset(xs) == multiset(ordered)
    ensures Numbered(Relabel(xs, ordered))
  {
    assert |multiset(xs)| == |xs| && |multiset(ordered)| == |ordered|;
    var r := Relabel(xs, ordered);
    forall i | 0 <= i < |xs|
      ensures Rank(ordered, xs[i].folder, xs[i].index) < |ordered|
    {
      assert xs[i] in multiset(ordered);
      var k :| 0 <= k < |ordered| && ordered[k] == xs[i];
    }
    forall i, j | 0 <= i < j < |r|
      ensures r[i].seqNo != r[j].seqNo
    {
      var k := Rank(ordered, xs[i].folder, xs[i].index);
      assert ordered[k].folder == xs[i].folder && ordered[k].index == xs[i].index;
      assert xs[i].folder != xs[j].folder || xs[i].index != xs[j].index;
    }
  }

  // --- the folder list is re-sorted afterwards -------------------------------------------------

  /** The sequence numbers of the child folders, in list order. */
  function ChildNumbers(folders: seq<Folder>, p: Parent): seq<int> {
    if folders == [] then []
    else (if ChildFolder(folders[0], p) then [folders[0].seqNo] else []) + ChildNumbers(folders[1..], p)
  }

  lemma {:induction false} ChildNumbersInsert(x: Folder, xs: seq<Folder>, p: Parent)
    ensures multiset(ChildNumbers(Insert(FolderLeq, x, xs), p)) == multiset(ChildNumbers([x] + xs, p))
  {
    assert ([x] + xs)[1..] == xs;
    if xs == [] {
      assert [x] + xs == [x];
    } else if !FolderLeq(x, xs[0]) {
      var r := Insert(FolderLeq, x, xs[1..]);
      assert ([xs[0]] + r)[1..] == r;
      ChildNumbersInsert(x, xs[1..], p);
      assert ([x] + xs[1..])[1..] == xs[1..];
    }
  }

  lemma {:induction false} ChildNumbersSort(xs: seq<Folder>, p: Parent)
    ensures multiset(ChildNumbers(StableSort(FolderLeq, xs), p)) == multiset(ChildNumbers(xs, p))
  {
    if xs != [] {
      ChildNumbersSort(xs[1..], p);
      var r := StableSort(FolderLeq, xs[1..]);
      ChildNumbersInsert(xs[0], r, p);
      assert ([xs[0]] + r)[1..] == r;
    }
  }

  lemma {:induction false} ChildNumbersAppend(xs: seq<Folder>, x: Folder, p: Parent)
    ensures ChildNumbers(xs + [x], p) == ChildNumbers(xs, p) + if ChildFolder(x, p) then [x.seqNo] else []
  {
    if xs == [] {
      assert xs + [x] == [x];
    } else {
      assert (xs + [x])[1..] == xs[1..] + [x];
      ChildNumbersAppend(xs[1..], x, p);
    }
  }

  lemma {:induction false} FolderNumbers(folders: seq<Folder>, p: Parent)
    ensures Numbers(FolderSiblings(folders, p)) == ChildNumbers(folders, p)
    decreases |folders|
  {
    if folders == [] {
      assert Numbers([]) == [];
    } else {
      var n := |folders| - 1;
      FolderNumbers(folders[..n], p);
      ChildNumbersAppend(folders[..n], folders[n], p);
      assert folders == folders[..n] + [folders[n]];
    }
  }

  ghost predicate NumberedSeq(ns: seq<int>) {
    Distinct(ns) && forall i :: 0 <= i < |ns| ==> 1 <= ns[i] <= |ns|
  }

  lemma NumberedBySeq(xs: seq<Sibling>)
    ensures Numbered(xs) <==> NumberedSeq(Numbers(xs))
  {
    if Numbered(xs) {
      assert forall i, j :: 0 <= i < j < |xs| ==> xs[i].seqNo != xs[j].seqNo;
    }
    if NumberedSeq(Numbers(xs)) {
      assert forall i :: 0 <= i < |xs| ==> Numbers(xs)[i] == xs[i].seqNo;
    }
  }

  lemma NumberedPermutes(ns: seq<int>, ms: seq<int>)
    requires NumberedSeq(ns) && multiset(ns) == multiset(ms)
    ensures NumberedSeq(ms)
  {
    assert |multiset(ns)| == |ns| && |multiset(ms)| == |ms|;
    PermutationDistinct(ns, ms);
    forall i | 0 <= i < |ms|
      ensures 1 <= ms[i] <= |ms|
    {
      assert ms[i] in multiset(ns);
    }
  }

  lemma SiblingNumbers(fs: seq<Folder>, rs: seq<Request>, p: Parent)
    ensures Numbers(Siblings(fs, rs, p)) == ChildNumbers(fs, p) + Numbers(RequestSiblings(rs, p))
  {
    FolderNumbers(fs, p);
  }

  lemma SortKeepsNumbers(fs: seq<Folder>, rs: seq<Request>, p: Parent)
    requires Numbered(Siblings(fs, rs, p))
    ensures Numbered(Siblings(StableSort(FolderLeq, fs), rs, p))
    ensures |Siblings(StableSort(FolderLeq, fs), rs, p)| == |Siblings(fs, rs, p)|
  {
    var sorted := StableSort(FolderLeq, fs);
    var before, after := Siblings(fs, rs, p), Siblings(sorted, rs, p);
    NumberedBySeq(before);
    NumberedBySeq(after);
    SiblingNumbers(fs, rs, p);
    SiblingNumbers(sorted, rs, p);
    ChildNumbersSort(fs, p);
    hide Siblings;
    hide ChildNumbers;
    hide Numbered;
    hide NumberedSeq;
    assert multiset(Numbers(before)) == multiset(Numbers(after));
    assert |multiset(Numbers(before))| == |before| && |multiset(Numbers(after))| == |after|;
    NumberedPermutes(Numbers(before), Numbers(after));
  }

  lemma RenumberedSiblings(folders: seq<Folder>, requests: seq<Request>, p: Parent)
    ensures var ordered := Ordered(Siblings(folders, requests, p));
            && Numbered(Siblings(RenumberedFolders(folders, ordered), RenumberedRequests(requests, ordered), p))
            && |Siblings(RenumberedFolders(folders, ordered), RenumberedRequests(requests, ordered), p)|
               == |Siblings(folders, requests, p)|
  {
    var siblings := Siblings(folders, requests, p);
    SiblingsDistinct(folders, requests, p);
    OrderedPermutes(siblings);
    RelabelNumbers(siblings, Ordered(siblings));
    FolderSiblingsRelabel(folders, p, Ordered(siblings));
    RequestSiblingsRelabel(requests, p, Ordered(siblings));
    RelabelAppend(FolderSiblings(folders, p), RequestSiblings(requests, p), Ordered(siblings));
  }

  lemma RelabelAppend(xs: seq<Sibling>, ys: seq<Sibling>, ordered: seq<Sibling>)
    ensures Relabel(xs + ys, ordered) == Relabel(xs, ordered) + Relabel(ys, ordered)
  {
  }

  /** After a resequencing the children are numbered exactly 1..n. */
  lemma ResequencedIsNumbered(folders: seq<Folder>, requests: seq<Request>, p: Parent)
    ensures var r := Resequenced(folders, requests, p);
            Numbered(Siblings(r.0, r.1, p)) && |Siblings(r.0, r.1, p)| == |Siblings(folders, requests, p)|
  {
    var ordered := Ordered(Siblings(folders, requests, p));
    RenumberedSiblings(folders, requests, p);
    SortKeepsNumbers(RenumberedFolders(folders, ordered), RenumberedRequests(requests, ordered), p);
  }

  lemma NumberAtRank(xs: seq<Sibling>, folder: bool, index: nat, s: Sibling)
    requires Numbered(xs) && DistinctEntries(xs)
    requires s in xs ==> s.folder == folder && s.index == index
    requires s !in xs ==> forall x <- xs :: x.folder != folder || x.index != index
    ensures Renumbered(Ordered(xs), folder, index, s.seqNo) == s.seqNo
  {
    var ordered := Ordered(xs);
    OrderedPermutes(xs);
    var k := Rank(ordered, folder, index);
    if k < |ordered| {
      NumberedIsFixed(xs, k);
      assert ordered[k] in multiset(xs);
      SameEntry(xs, ordered[k], s);
    }
  }

  lemma SameEntry(xs: seq<Sibling>, a: Sibling, b: Sibling)
    requires DistinctEntries(xs) && a in xs && (b in xs ==> a.folder == b.folder && a.index == b.index)
    requires b !in xs ==> forall x <- xs :: x.folder != a.folder || x.index != a.index
    ensures a == b
  {
    var i :| 0 <= i < |xs| && xs[i] == a;
    if b in xs {
      var j :| 0 <= j < |xs| && xs[j] == b;
    }
  }

  /** A collection whose children are already numbered keeps every number. */
  lemma NumberedKeeps(folders: seq<Folder>, requests: seq<Request>, p: Parent)
    requires Numbered(Siblings(folders, requests, p))
    ensures RenumberedFolders(folders, Ordered(Siblings(folders, requests, p))) == folders
    ensures RenumberedRequests(requests, Ordered(Siblings(folders, requests, p))) == requests
  {
    var siblings := Siblings(folders, requests, p);
    SiblingsDistinct(folders, requests, p);
    FolderSiblingsIndex(folders, p);
    RequestSiblingsIndex(requests, p);
    hide Ordered;
    hide Numbered;
    forall i | 0 <= i < |folders|
      ensures Renumbered(Ordered(siblings), true, i, folders[i].seqNo) == folders[i].seqNo
    {
      NumberAtRank(siblings, true, i, Sibling(true, i, folders[i].name, folders[i].seqNo));
    }
    forall i | 0 <= i < |requests|
      ensures Renumbered(Ordered(siblings), false, i, requests[i].seqNo) == requests[i].seqNo
    {
      NumberAtRank(siblings, false, i, Sibling(false, i, requests[i].name, requests[i].seqNo));
    }
    hide Renumbered;
  }

  /** Resequencing twice is resequencing once. */
  lemma ResequencingTwice(folders: seq<Folder>, requests: seq<Request>, p: Parent)
    ensures var r := Resequenced(folders, requests, p); Resequenced(r.0, r.1, p) == r
  {
    var siblings := Siblings(folders, requests, p);
    if siblings != [] {
      var r := Resequenced(folders, requests, p);
      ResequencedIsNumbered(folders, requests, p);
      NumberedKeeps(r.0, r.1, p);
      FolderOrdered();
      SortSorted(FolderLeq, RenumberedFolders(folders, Ordered(siblings)));
      SortOfSorted(FolderLeq, r.0);
    }
  }

  // --- who gets which number -----------------------------------------------------------------

  /** A folder or request with a child's rank in the ordering for its number, counted from 1,
      and any other with its own. */
  ghost predicate Ranked(ordered: seq<Sibling>, folder: bool, index: nat, seqNo: int, now: int) {
    if exists k :: 0 <= k < |ordered| && ordered[k].folder == folder && ordered[k].index == index
    then 1 <= now <= |ordered| && ordered[now - 1].folder == folder && ordered[now - 1].index == index
    else now == seqNo
  }

  lemma RenumberedRanks(ordered: seq<Sibling>, folder: bool, index: nat, seqNo: int)
    ensures Ranked(ordered, folder, index, seqNo, Renumbered(ordered, folder, index, seqNo))
  {
  }

  /** A resequencing gives the children the numbers of their ranks and nothing else, and
      re-sorts the folders. */
  lemma ResequencedByRank(folders: seq<Folder>, requests: seq<Request>, p: Parent) returns (fs: seq<Folder>)
    ensures var r, ordered := Resequenced(folders, requests, p), Ordered(Siblings(folders, requests, p));
            && |fs| == |folders| && multiset(r.0) == multiset(fs) && |r.1| == |requests|
            && (Siblings(folders, requests, p) != [] ==> Sorted(FolderLeq, r.0))
            && (forall i :: 0 <= i < |folders| ==>
                  fs[i] == folders[i].(seqNo := fs[i].seqNo) && Ranked(ordered, true, i, folders[i].seqNo, fs[i].seqNo))
            && (forall i :: 0 <= i < |requests| ==>
                  r.1[i] == requests[i].(seqNo := r.1[i].seqNo) && Ranked(ordered, false, i, requests[i].seqNo, r.1[i].seqNo))
  {
    var siblings := Siblings(folders, requests, p);
    var ordered := Ordered(siblings);
    fs := RenumberedFolders(folders, ordered);
    forall folder: bool, index: nat, seqNo: int
      ensures Ranked(ordered, folder, index, seqNo, Renumbered(ordered, folder, index, seqNo))
    {
      RenumberedRanks(ordered, folder, index, seqNo);
    }
    hide Ranked;
    if siblings == [] {
      assert |ordered| == 0;
      assert fs == folders && RenumberedRequests(requests, ordered) == requests;
    } else {
      FolderOrdered();
      SortPermutes(FolderLeq, fs);
      SortSorted(FolderLeq, fs);
    }
    hide Ordered;
    hide Siblings;
    hide Renumbered;
    hide StableSort;
  }

  /** The children are the folders right below by either path and the requests displayed
      there, each once. */
  lemma SiblingsExactly(folders: seq<Folder>, requests: seq<Request>, p: Parent, s: Sibling)
    ensures s in Siblings(folders, requests, p) <==>
            if s.folder then
              && s.index < |folders| && s == Sibling(true, s.index, folders[s.index].name, folders[s.index].seqNo)
              && (folders[s.index].parent == p.path || folders[s.index].displayParent == p.display)
            else
              && s.index < |requests| && s == Sibling(false, s.index, requests[s.index].name, requests[s.index].seqNo)
              && requests[s.index].folder == p.display
    ensures DistinctEntries(Siblings(folders, requests, p))
  {
    FolderSiblingsIndex(folders, p);
    RequestSiblingsIndex(requests, p);
    SiblingsDistinct(folders, requests, p);
    hide DistinctEntries;
  }

  // --- as the source runs it ---------------------------------------------------------------

  class Collection {
    var folders: seq<Folder>
    var requests: seq<Request>

    constructor (folders: seq<Folder>, requests: seq<Request>)
      ensures this.folders == folders && this.requests == requests
    {
      this.folders, this.requests := folders, requests;
    }

    method CollectSiblings(p: Parent) returns (siblings: seq<Sibling>)
      ensures siblings == Siblings(folders, requests, p)
    {
      siblings := [];
      for i := 0 to |folders|
        invariant siblings == FolderSiblings(folders[..i], p)
      {
        assert folders[..i + 1][..i] == folders[..i];
        if ChildFolder(folders[i], p) {
          siblings := siblings + [Sibling(true, i, folders[i].name, folders[i].seqNo)];
        }
      }
      assert folders[..|folders|] == folders;
      for i := 0 to |requests|
        invariant siblings == FolderSiblings(folders, p) + RequestSiblings(requests[..i], p)
      {
        assert requests[..i + 1][..i] == requests[..i];
        if ChildRequest(requests[i], p) {
          siblings := siblings + [Sibling(false, i, requests[i].name, requests[i].seqNo)];
        }
      }
      assert requests[..|requests|] == requests;
    }

    /** Each child takes its rank as its number, in place. */
    method AssignNumbers(ordered: seq<Sibling>)
      requires Pointing(folders, requests, ordered)
      modifies this
      ensures folders == RenumberedFolders(old(folders), ordered)
      ensures requests == RenumberedRequests(old(requests), ordered)
    {
      ghost var fs, rs := folders, requests;
      NoneRenumbered(fs, rs);
      hide RenumberedFolders;
      hide RenumberedRequests;
      hide Pointing;
      for index := 0 to |ordered|
        invariant folders == RenumberedFolders(fs, ordered[..index])
        invariant requests == RenumberedRequests(rs, ordered[..index])
      {
        var entry := ordered[index];
        RenumberOne(fs, rs, ordered, index);
        if entry.folder {
          folders := folders[entry.index := folders[entry.index].(seqNo := index + 1)];
        } else {
          requests := requests[entry.index := requests[entry.index].(seqNo := index + 1)];
        }
      }
      assert ordered[..|ordered|] == ordered;
    }

    /** The children are numbered by rank; then the folders are re-sorted. */
    method Resequence(p: Parent)
      modifies this
      ensures (folders, requests) == Resequenced(old(folders), old(requests), p)
    {
      var siblings := CollectSiblings(p);
      if siblings == [] {
        return;
      }
      var ordered := SortSiblings(siblings);
      OrderedEntries(folders, requests, p);
      hide RenumberedFolders;
      hide RenumberedRequests;
      hide Ordered;
      hide Siblings;
      hide StableSort;
      hide Pointing;
      AssignNumbers(ordered);
      folders := StableSort(FolderLeq, folders);
    }
  }

  lemma NoneRenumbered(fs: seq<Folder>, rs: seq<Request>)
    ensures RenumberedFolders(fs, []) == fs && RenumberedRequests(rs, []) == rs
  {
  }

  lemma {:induction false} RankAppend(xs: seq<Sibling>, e: Sibling, folder: bool, index: nat)
    ensures Rank(xs + [e], folder, index) ==
            if Rank(xs, folder, index) < |xs| then Rank(xs, folder, index)
            else if e.folder == folder && e.index == index then |xs| else |xs| + 1
  {
    if xs == [] {
      assert xs + [e] == [e];
    } else {
      assert (xs + [e])[1..] == xs[1..] + [e];
      RankAppend(xs[1..], e, folder, index);
    }
  }

  /** The entries of an ordering are distinct and point into the collection. */
  ghost predicate Pointing(fs: seq<Folder>, rs: seq<Request>, ordered: seq<Sibling>) {
    && DistinctEntries(ordered)
    && forall k :: 0 <= k < |ordered| ==> ordered[k].index < if ordered[k].folder then |fs| else |rs|
  }

  lemma RenumberAt(fs: seq<Folder>, rs: seq<Request>, ordered: seq<Sibling>, k: nat, folder: bool, i: nat, seqNo: int)
    requires Pointing(fs, rs, ordered) && k < |ordered|
    ensures Renumbered(ordered[..k + 1], folder, i, seqNo) ==
            if ordered[k].folder == folder && ordered[k].index == i then k + 1
            else Renumbered(ordered[..k], folder, i, seqNo)
  {
    assert ordered[..k + 1] == ordered[..k] + [ordered[k]];
    RankAppend(ordered[..k], ordered[k], folder, i);
    var r := Rank(ordered[..k], folder, i);
    if r < k {
      assert ordered[..k][r] == ordered[r];
    }
  }

  lemma RenumberOne(fs: seq<Folder>, rs: seq<Request>, ordered: seq<Sibling>, k: nat)
    requires Pointing(fs, rs, ordered) && k < |ordered|
    ensures var e := ordered[k];
            var done := RenumberedFolders(fs, ordered[..k]);
            && (e.folder ==> e.index < |fs|)
            && RenumberedFolders(fs, ordered[..k + 1]) == if e.folder then done[e.index := done[e.index].(seqNo := k + 1)] else done
    ensures var e := ordered[k];
            var done := RenumberedRequests(rs, ordered[..k]);
            && (!e.folder ==> e.index < |rs|)
            && RenumberedRequests(rs, ordered[..k + 1]) == if e.folder then done else done[e.index := done[e.index].(seqNo := k + 1)]
  {
    forall i | 0 <= i < |fs|
      ensures Renumbered(ordered[..k + 1], true, i, fs[i].seqNo) ==
              if ordered[k].folder && ordered[k].index == i then k + 1 else Renumbered(ordered[..k], true, i, fs[i].seqNo)
    {
      RenumberAt(fs, rs, ordered, k, true, i, fs[i].seqNo);
    }
    forall i | 0 <= i < |rs|
      ensures Renumbered(ordered[..k + 1], false, i, rs[i].seqNo) ==
              if !ordered[k].folder && ordered[k].index == i then k + 1 else Renumbered(ordered[..k], false, i, rs[i].seqNo)
    {
      RenumberAt(fs, rs, ordered, k, false, i, rs[i].seqNo);
    }
    hide Renumbered;
  }

  lemma OrderedEntries(fs: seq<Folder>, rs: seq<Request>, p: Parent)
    ensures Pointing(fs, rs, Ordered(Siblings(fs, rs, p)))
  {
    var xs := Siblings(fs, rs, p);
    var ordered := Ordered(xs);
    SiblingsDistinct(fs, rs, p);
    FolderSiblingsIndex(fs, p);
    RequestSiblingsIndex(rs, p);
    OrderedPermutes(xs);
    hide Ordered;
    assert Distinct(xs);
    PermutationDistinct(xs, ordered);
    forall k | 0 <= k < |ordered|
      ensures ordered[k] in xs
    {
      assert ordered[k] in multiset(xs);
    }
    forall i, j | 0 <= i < j < |ordered|
      ensures ordered[i].folder != ordered[j].folder || ordered[i].index != ordered[j].index
    {
      EntriesDiffer(xs, ordered[i], ordered[j]);
    }
  }

  lemma EntriesDiffer(xs: seq<Sibling>, a: Sibling, b: Sibling)
    requires DistinctEntries(xs) && a in xs && b in xs && a != b
    ensures a.folder != b.folder || a.index != b.index
  {
    var i :| 0 <= i < |xs| && xs[i] == a;
    var j :| 0 <= j < |xs| && xs[j] == b;
    assert i < j || j < i;
  }
}
