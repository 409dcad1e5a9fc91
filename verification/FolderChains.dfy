// Restoring the folders a filtered import still needs: every ancestor of a kept request
// or kept folder comes back, once, from the unfiltered list where it has it.

module FolderChains {
  import opened Ordering
  import opened Paths
  import opened Text

  /** Content stands for the scripts, auth and sequence a folder carries; a folder that is
      made up carries none. */
  datatype Folder = Folder(displayPath: Path, path: Path, content: Option<string>)

  function Key(f: Folder): Path {
    if f.displayPath != [] then f.displayPath else f.path
  }

  function MadeUp(key: Path): Folder {
    Folder(key, key, None)
  }

  /** The first available folder with the key, or one made up. */
  function Source(available: seq<Folder>, key: Path): (f: Folder)
    ensures key != [] ==> Key(f) == key
  {
    if available == [] then MadeUp(key)
    else if Key(available[0]) == key then available[0]
    else Source(available[1..], key)
  }

  // --- the worklist ----------------------------------------------------------------------------

  datatype Work = Work(present: set<Path>, required: seq<Path>)

  /** The path and all its ancestors, nearest first. */
  function Add(w: Work, p: Path): Work
    decreases |p|
  {
    if p == [] then w
    else Add(if p in w.present then w else Work(w.present + {p}, w.required + [p]), Parent(p))
  }

  function AddAll(w: Work, ps: seq<Path>): Work {
    if ps == [] then w else Add(AddAll(w, ps[..|ps| - 1]), ps[|ps| - 1])
  }

  function Keys(folders: seq<Folder>): set<Path> {
    set f <- folders | Key(f) != [] :: Key(f)
  }

  function ParentKeys(folders: seq<Folder>): (r: seq<Path>)
    ensures |r| == |folders|
  {
    seq(|folders|, i requires 0 <= i < |folders| => Parent(Key(folders[i])))
  }

  /** Items are given by the folders they are in. */
  function Required(items: seq<Path>, folders: seq<Folder>): seq<Path> {
    AddAll(Work(Keys(folders), []), items + ParentKeys(folders)).required
  }

  /** sort.Strings works on the joined paths. */
  predicate PathLeq(a: Path, b: Path) {
    StringLeq(Join(a, "/"), Join(b, "/"))
  }

  function Sources(available: seq<Folder>, keys: seq<Path>): (r: seq<Folder>)
    ensures |r| == |keys|
  {
    seq(|keys|, i requires 0 <= i < |keys| => Source(available, keys[i]))
  }

  function Reconciled(items: seq<Path>, folders: seq<Folder>, available: seq<Folder>): seq<Folder> {
    folders + Sources(available, StableSort(PathLeq, Required(items, folders)))
  }

  // --- what is required ------------------------------------------------------------------------

  /** Some path of the list is k or lies below it. */
  ghost predicate Covered(ps: seq<Path>, k: Path) {
    exists p <- ps :: Below(p, k)
  }

  /** Some kept request lies in k, or some kept folder strictly below it. */
  ghost predicate Needed(items: seq<Path>, folders: seq<Folder>, k: Path) {
    k != [] && (Covered(items, k) || exists f <- folders :: Below(Parent(Key(f)), k))
  }

  ghost predicate Tidy(w: Work, base: set<Path>) {
    && Distinct(w.required)
    && (forall k :: k in w.present <==> k in base || k in w.required)
    && (forall k :: k in w.required ==> k !in base)
  }

  lemma {:induction false} AddIsClosure(w: Work, base: set<Path>, p: Path)
    requires Tidy(w, base)
    ensures Tidy(Add(w, p), base)
    ensures forall k :: k in Add(w, p).present <==> k in w.present || (k != [] && Below(p, k))
    decreases |p|
  {
    if p != [] {
      var next := if p in w.present then w else Work(w.present + {p}, w.required + [p]);
      AddIsClosure(next, base, Parent(p));
      forall k | k != []
        ensures Below(p, k) <==> k == p || Below(Parent(p), k)
      {
      }
    }
  }

  lemma {:induction false} AddAllIsClosure(w: Work, base: set<Path>, ps: seq<Path>)
    requires Tidy(w, base)
    ensures Tidy(AddAll(w, ps), base)
    ensures forall k :: k in AddAll(w, ps).present <==> k in w.present || (k != [] && Covered(ps, k))
  {
    if ps != [] {
      var n := |ps| - 1;
      AddAllIsClosure(w, base, ps[..n]);
      AddIsClosure(AddAll(w, ps[..n]), base, ps[n]);
      assert ps == ps[..n] + [ps[n]];
      forall k
        ensures Covered(ps, k) <==> Covered(ps[..n], k) || Below(ps[n], k)
      {
        CoveredAppend(ps[..n], [ps[n]], k);
        assert Covered([ps[n]], k) <==> Below(ps[n], k) by { assert ps[n] in [ps[n]]; }
      }
    }
  }

  lemma CoveredAppend(ps: seq<Path>, qs: seq<Path>, k: Path)
    ensures Covered(ps + qs, k) <==> Covered(ps, k) || Covered(qs, k)
  {
    assert forall p :: p in ps + qs <==> p in ps || p in qs;
  }

  /** Exactly the missing ancestors are required, each once. */
  lemma RequiredExactly(items: seq<Path>, folders: seq<Folder>)
    ensures Distinct(Required(items, folders))
    ensures forall k :: k in Required(items, folders) <==> Needed(items, folders, k) && k !in Keys(folders)
  {
    var base := Keys(folders);
    AddAllIsClosure(Work(base, []), base, items + ParentKeys(folders));
    hide Distinct;
    hide AddAll;
    hide Keys;
    forall k
      ensures k != [] && Covered(items + ParentKeys(folders), k) <==> Needed(items, folders, k)
    {
      CoveredAppend(items, ParentKeys(folders), k);
      FoldersCover(folders, k);
    }
    hide Covered;
    hide Needed;
  }

  lemma FoldersCover(folders: seq<Folder>, k: Path)
    ensures Covered(ParentKeys(folders), k) <==> exists f <- folders :: Below(Parent(Key(f)), k)
  {
    var parents := ParentKeys(folders);
    hide Below;
    hide Key;
    if f :| f in folders && Below(Parent(Key(f)), k) {
      var i :| 0 <= i < |folders| && folders[i] == f;
      assert parents[i] in parents;
    }
    if p :| p in parents && Below(p, k) {
      var i :| 0 <= i < |parents| && parents[i] == p;
      assert folders[i] in folders;
    }
  }

  // --- the result ------------------------------------------------------------------------------

  lemma ReconciledKeys(items: seq<Path>, folders: seq<Folder>, available: seq<Folder>)
    ensures forall k :: k in Keys(Reconciled(items, folders, available)) <==>
                        k in Keys(folders) || Needed(items, folders, k)
  {
    var required := Required(items, folders);
    var keys := StableSort(PathLeq, required);
    var added := Sources(available, keys);
    RequiredExactly(items, folders);
    hide Required;
    assert forall k <- required :: k != [];
    forall k
      ensures k in keys <==> k in required
    {
      InSorted(PathLeq, required, k);
    }
    hide StableSort;
    hide Needed;
    forall k
      ensures k in Keys(added) <==> k in keys
    {
      AddedKeys(available, keys, k);
    }
    assert Reconciled(items, folders, available) == folders + added;
    assert forall f :: f in folders + added <==> f in folders || f in added;
  }

  lemma AddedKeys(available: seq<Folder>, keys: seq<Path>, k: Path)
    requires forall key <- keys :: key != []
    ensures k in Keys(Sources(available, keys)) <==> k in keys
  {
    var added := Sources(available, keys);
    if k in Keys(added) {
      var f :| f in added && Key(f) == k;
      var i :| 0 <= i < |added| && added[i] == f;
      assert keys[i] in keys;
    }
    if k in keys {
      var i :| 0 <= i < |keys| && keys[i] == k;
      assert added[i] in added;
    }
  }

  /** The whole chain above every kept request and every folder of the result is there. */
  lemma ChainsAreWhole(items: seq<Path>, folders: seq<Folder>, available: seq<Folder>, k: Path)
    requires k != []
    ensures var r := Reconciled(items, folders, available);
            && (forall p <- items | Below(p, k) :: k in Keys(r))
            && (forall f <- r | Below(Parent(Key(f)), k) :: k in Keys(r))
  {
    var r := Reconciled(items, folders, available);
    ReconciledKeys(items, folders, available);
    hide Reconciled;
    forall f <- r | Below(Parent(Key(f)), k)
      ensures k in Keys(r)
    {
      assert Key(f) in Keys(r);
      if Key(f) in Keys(folders) {
        var g :| g in folders && Key(g) == Key(f);
      } else {
        NeededAbove(items, folders, Key(f), k);
      }
    }
  }

  lemma NeededAbove(items: seq<Path>, folders: seq<Folder>, k: Path, above: Path)
    requires Needed(items, folders, k) && above != [] && Below(Parent(k), above)
    ensures Needed(items, folders, above)
  {
    assert Below(k, above);
    if p :| p in items && Below(p, k) {
      assert Below(p, above);
    } else {
      var f :| f in folders && Below(Parent(Key(f)), k);
      assert Below(Parent(Key(f)), above);
    }
  }

  /** A second reconciliation has nothing to add. */
  lemma ReconciledTwice(items: seq<Path>, folders: seq<Folder>, available: seq<Folder>, more: seq<Folder>)
    ensures var r := Reconciled(items, folders, available); Reconciled(items, r, more) == r
  {
    var r := Reconciled(items, folders, available);
    RequiredExactly(items, r);
    if Required(items, r) != [] {
      var k := Required(items, r)[0];
      assert k in Required(items, r);
      ChainsAreWhole(items, folders, available, k);
      hide Reconciled;
      assert false;
    }
  }

  // --- the added folders, in order -------------------------------------------------------------

  lemma {:induction false} PrefixLeq(s: string, t: string)
    ensures StringLeq(s, s + t)
  {
    if s != [] {
      assert (s + t)[1..] == s[1..] + t;
      PrefixLeq(s[1..], t);
    }
  }

  lemma {:induction false} JoinSnoc(p: Path, x: string)
    requires p != []
    ensures Join(p + [x], "/") == Join(p, "/") + "/" + x
  {
    if |p| > 1 {
      assert (p + [x])[1..] == p[1..] + [x];
      JoinSnoc(p[1..], x);
      assert p[0] + "/" + (Join(p[1..], "/") + "/" + x) == (p[0] + "/" + Join(p[1..], "/")) + "/" + x;
    } else {
      assert (p + [x])[1..] == [x];
    }
  }

  lemma ParentLeq(p: Path)
    requires |p| > 1
    ensures PathLeq(Parent(p), p) && !PathLeq(p, Parent(p))
  {
    var q, x := Parent(p), p[|p| - 1];
    assert p == q + [x];
    JoinSnoc(q, x);
    assert Join(p, "/") == Join(q, "/") + ("/" + x);
    PrefixLeq(Join(q, "/"), "/" + x);
    StringLeqTotal(Join(q, "/"), Join(p, "/"));
  }

  function AddedKeyList(items: seq<Path>, folders: seq<Folder>): seq<Path> {
    StableSort(PathLeq, Required(items, folders))
  }

  lemma AddedInOrder(items: seq<Path>, folders: seq<Folder>, available: seq<Folder>)
    ensures var r, keys := Reconciled(items, folders, available), AddedKeyList(items, folders);
            && Sorted(PathLeq, keys) && Distinct(keys) && |r| == |folders| + |keys|
            && (forall i, j :: 0 <= i < j < |keys| ==> StringLeq(Join(keys[i], "/"), Join(keys[j], "/")))
            && (forall k :: k in keys <==> Needed(items, folders, k) && k !in Keys(folders))
            && forall i :: 0 <= i < |keys| ==> Key(r[|folders| + i]) == keys[i]
  {
    var required, keys := Required(items, folders), AddedKeyList(items, folders);
    RequiredExactly(items, folders);
    PathOrder();
    SortSorted(PathLeq, required);
    SortPermutes(PathLeq, required);
    AsJoined(keys);
    hide StableSort;
    hide Required;
    hide Needed;
    hide Keys;
    hide Sorted;
    hide PathLeq;
    PermutationDistinct(required, keys);
    hide Distinct;
    forall k
      ensures k in keys <==> k in required
    {
      InSorted(PathLeq, required, k);
    }
    forall i | 0 <= i < |keys|
      ensures keys[i] != []
    {
      assert keys[i] in keys;
      assert keys[i] in required;
      assert Needed(items, folders, keys[i]);
      NeededNotEmpty(items, folders, keys[i]);
    }
  }

  lemma AsJoined(keys: seq<Path>)
    requires Sorted(PathLeq, keys)
    ensures forall i, j :: 0 <= i < j < |keys| ==> StringLeq(Join(keys[i], "/"), Join(keys[j], "/"))
  {
    forall i, j | 0 <= i < j < |keys|
      ensures StringLeq(Join(keys[i], "/"), Join(keys[j], "/"))
    {
      assert PathLeq(keys[i], keys[j]);
    }
  }

  lemma NeededNotEmpty(items: seq<Path>, folders: seq<Folder>, k: Path)
    requires Needed(items, folders, k)
    ensures k != []
  {
  }

  /** A folder is appended after the folder around it. */
  lemma ParentsFirst(items: seq<Path>, folders: seq<Folder>, available: seq<Folder>, i: nat)
    requires |folders| <= i < |Reconciled(items, folders, available)|
    requires |Key(Reconciled(items, folders, available)[i])| > 1
    ensures var r := Reconciled(items, folders, available);
            exists j :: 0 <= j < i && Key(r[j]) == Parent(Key(r[i]))
  {
    var r := Reconciled(items, folders, available);
    AddedInOrder(items, folders, available);
    ParentThere(items, folders, available, r[i]);
    hide Reconciled;
    hide AddedKeyList;
    hide Needed;
    hide Distinct;
    hide Sorted;
    hide Keys;
    hide Key;
    var j := ParentIndex(r, AddedKeyList(items, folders), |folders|, i);
  }

  lemma ParentIndex(r: seq<Folder>, keys: seq<Path>, n: nat, i: nat) returns (j: nat)
    requires Sorted(PathLeq, keys) && |r| == n + |keys| && n <= i < |r|
    requires forall k :: 0 <= k < |keys| ==> Key(r[n + k]) == keys[k]
    requires |Key(r[i])| > 1 && Parent(Key(r[i])) in Keys(r)
    ensures j < i && Key(r[j]) == Parent(Key(r[i]))
  {
    j := Place(r, Parent(Key(r[i])));
    assert Key(r[n + (i - n)]) == keys[i - n];
    if j >= i {
      assert Key(r[n + (j - n)]) == keys[j - n];
      ParentAfter(keys, i - n, j - n);
    }
  }

  lemma ParentThere(items: seq<Path>, folders: seq<Folder>, available: seq<Folder>, f: Folder)
    requires f in Reconciled(items, folders, available) && |Key(f)| > 1
    ensures Parent(Key(f)) in Keys(Reconciled(items, folders, available))
  {
    var parent := Parent(Key(f));
    ChainsAreWhole(items, folders, available, parent);
    hide Reconciled;
    assert Below(parent, parent);
  }

  lemma Place(folders: seq<Folder>, k: Path) returns (j: nat)
    requires k in Keys(folders)
    ensures j < |folders| && Key(folders[j]) == k
  {
    var f :| f in folders && Key(f) == k;
    j :| 0 <= j < |folders| && folders[j] == f;
  }

  lemma ParentAfter(keys: seq<Path>, i: nat, j: nat)
    requires Sorted(PathLeq, keys) && i <= j < |keys|
    requires |keys[i]| > 1
    ensures keys[j] != Parent(keys[i])
  {
    ParentLeq(keys[i]);
    assert i < j ==> PathLeq(keys[i], keys[j]);
  }

  /** The first folder of its key in the unfiltered list, or made up of a key that has none
      there: both paths are the key, and it carries nothing. */
  ghost predicate ComesFrom(available: seq<Folder>, f: Folder) {
    || (exists j :: 0 <= j < |available| && available[j] == f && forall l :: 0 <= l < j ==> Key(available[l]) != Key(f))
    || ((forall g <- available :: Key(g) != Key(f)) && f == Folder(Key(f), Key(f), None))
  }

  lemma {:induction false} SourceComesFrom(available: seq<Folder>, key: Path)
    requires key != []
    ensures ComesFrom(available, Source(available, key))
  {
    if available != [] && Key(available[0]) != key {
      var rest := available[1..];
      var f := Source(rest, key);
      SourceComesFrom(rest, key);
      if j :| 0 <= j < |rest| && rest[j] == f && forall l :: 0 <= l < j ==> Key(rest[l]) != Key(f) {
        assert available[j + 1] == f;
        assert forall l :: 0 <= l < j + 1 ==> l > 0 ==> available[l] == rest[l - 1];
      } else {
        assert available == [available[0]] + rest;
      }
    }
  }

  /** The folders kept stay in front; those behind come from the unfiltered list where it
      has them. */
  lemma AddedComeFrom(items: seq<Path>, folders: seq<Folder>, available: seq<Folder>, i: nat)
    requires i < |Reconciled(items, folders, available)|
    ensures var r := Reconciled(items, folders, available);
            if i < |folders| then r[i] == folders[i] else ComesFrom(available, r[i])
  {
    if i >= |folders| {
      var keys := AddedKeyList(items, folders);
      var k := keys[i - |folders|];
      AddedInOrder(items, folders, available);
      hide Needed;
      hide Keys;
      hide Required;
      hide StableSort;
      hide ComesFrom;
      assert k in keys;
      NeededNotEmpty(items, folders, k);
      SourceComesFrom(available, k);
    }
  }

  lemma PathOrder()
    ensures TotalPreorder(PathLeq)
  {
    StringOrder();
  }

  // --- as the source runs it -------------------------------------------------------------------

  method AddChain(present: set<Path>, required: seq<Path>, p: Path) returns (w: Work)
    ensures w == Add(Work(present, required), p)
  {
    w := Work(present, required);
    var key := p;
    while key != []
      invariant Add(w, key) == Add(Work(present, required), p)
      decreases |key|
    {
      if key !in w.present {
        w := Work(w.present + {key}, w.required + [key]);
      }
      key := Parent(key);
    }
  }

  predicate HasKey(folders: seq<Folder>, key: Path) {
    exists f <- folders :: Key(f) == key
  }

  lemma HasKeyAppend(xs: seq<Folder>, f: Folder, key: Path)
    ensures HasKey(xs + [f], key) <==> HasKey(xs, key) || Key(f) == key
  {
    assert forall g :: g in xs + [f] <==> g in xs || g == f;
  }

  lemma {:induction false} SourceAppend(xs: seq<Folder>, f: Folder, key: Path)
    ensures HasKey(xs, key) ==> Source(xs + [f], key) == Source(xs, key)
    ensures !HasKey(xs, key) && Key(f) == key ==> Source(xs + [f], key) == f
  {
    if xs == [] {
      assert xs + [f] == [f];
    } else {
      assert (xs + [f])[1..] == xs[1..] + [f];
      SourceAppend(xs[1..], f, key);
      assert xs == [xs[0]] + xs[1..];
      assert forall g :: g in xs <==> g == xs[0] || g in xs[1..];
    }
  }

  lemma {:induction false} SourceMissing(xs: seq<Folder>, key: Path)
    requires !HasKey(xs, key)
    ensures Source(xs, key) == MadeUp(key)
  {
    if xs != [] {
      assert forall f <- xs[1..] :: f in xs;
      SourceMissing(xs[1..], key);
    }
  }

  /** The folders keyed by path, the first of each key winning. */
  method IndexSources(available: seq<Folder>) returns (source: map<Path, Folder>)
    ensures forall key :: key != [] ==> Source(available, key) == if key in source then source[key] else MadeUp(key)
  {
    source := map[];
    ghost var seen: seq<Folder> := [];
    for i := 0 to |available|
      invariant seen == available[..i]
      invariant forall key :: key in source <==> key != [] && HasKey(seen, key)
      invariant forall key <- source :: source[key] == Source(seen, key)
    {
      var folder := available[i];
      forall k
        ensures HasKey(seen + [folder], k) <==> HasKey(seen, k) || Key(folder) == k
        ensures HasKey(seen, k) ==> Source(seen + [folder], k) == Source(seen, k)
        ensures !HasKey(seen, k) && Key(folder) == k ==> Source(seen + [folder], k) == folder
      {
        HasKeyAppend(seen, folder, k);
        SourceAppend(seen, folder, k);
      }
      hide Source;
      hide HasKey;
      var key := Key(folder);
      hide Key;
      if key != [] && key !in source {
        source := source[key := folder];
      }
      seen := seen + [folder];
    }
    assert seen == available;
    forall key | key != [] && key !in source
      ensures Source(available, key) == MadeUp(key)
    {
      SourceMissing(available, key);
    }
    hide Source;
    hide HasKey;
  }

  method IndexPresent(folders: seq<Folder>) returns (present: set<Path>)
    ensures present == Keys(folders)
  {
    present := {};
    for i := 0 to |folders|
      invariant present == Keys(folders[..i])
    {
      assert folders[..i + 1] == folders[..i] + [folders[i]];
      if Key(folders[i]) != [] {
        present := present + {Key(folders[i])};
      }
    }
    assert folders[..|folders|] == folders;
  }

  lemma {:induction false} AddAllAppend(w: Work, ps: seq<Path>, qs: seq<Path>)
    ensures AddAll(w, ps + qs) == AddAll(AddAll(w, ps), qs)
  {
    if qs == [] {
      assert ps + qs == ps;
    } else {
      var n := |qs| - 1;
      assert (ps + qs)[..|ps| + n] == ps + qs[..n];
      AddAllAppend(w, ps, qs[..n]);
    }
  }

  lemma AddAllNext(w: Work, ps: seq<Path>, i: nat)
    requires i < |ps|
    ensures AddAll(w, ps[..i + 1]) == Add(AddAll(w, ps[..i]), ps[i])
  {
    assert ps[..i + 1][..i] == ps[..i];
  }

  method CollectRequired(items: seq<Path>, folders: seq<Folder>, present: set<Path>) returns (required: seq<Path>)
    requires present == Keys(folders)
    ensures required == Required(items, folders)
  {
    var w := Work(present, []);
    ghost var start, parents := w, ParentKeys(folders);
    AddAllAppend(start, items, parents);
    for i := 0 to |items|
      invariant w == AddAll(start, items[..i])
    {
      AddAllNext(start, items, i);
      w := AddChain(w.present, w.required, items[i]);
    }
    assert items[..|items|] == items;
    ghost var middle := w;
    for i := 0 to |folders|
      invariant w == AddAll(middle, parents[..i])
    {
      AddAllNext(middle, parents, i);
      w := AddChain(w.present, w.required, Parent(Key(folders[i])));
    }
    assert parents[..|folders|] == parents;
    required := w.required;
  }

  method ReconcileFolderChains(items: seq<Path>, folders: seq<Folder>, available: seq<Folder>)
    returns (kept: seq<Folder>, warnings: seq<Path>)
    ensures kept == Reconciled(items, folders, available)
    ensures warnings == AddedKeyList(items, folders)
  {
    var present := IndexPresent(folders);
    var source := IndexSources(available);
    var required := CollectRequired(items, folders, present);
    RequiredExactly(items, folders);
    hide Required;
    hide Source;
    kept, warnings := AppendSources(folders, available, source, required);
  }

  method AppendSources(folders: seq<Folder>, available: seq<Folder>, source: map<Path, Folder>, required: seq<Path>)
    returns (kept: seq<Folder>, warnings: seq<Path>)
    requires forall key :: key != [] ==> Source(available, key) == if key in source then source[key] else MadeUp(key)
    ensures (forall key <- required :: key != []) ==>
              kept == folders + Sources(available, StableSort(PathLeq, required))
    ensures warnings == StableSort(PathLeq, required)
  {
    kept, warnings := folders, [];
    if required == [] {
      return;
    }
    var keys := StableSort(PathLeq, required);
    forall key
      ensures key in keys <==> key in required
    {
      InSorted(PathLeq, required, key);
    }
    hide StableSort;
    hide Source;
    for i := 0 to |keys|
      invariant warnings == keys[..i] && |kept| == |folders| + i && kept[..|folders|] == folders
      invariant (forall key <- required :: key != []) ==> kept[|folders|..] == Sources(available, keys)[..i]
    {
      var folder := if keys[i] in source then source[keys[i]] else MadeUp(keys[i]);
      assert keys[i] in keys;
      kept := kept + [folder];
      warnings := warnings + [keys[i]];
    }
    assert kept == kept[..|folders|] + kept[|folders|..];
    assert Sources(available, keys)[..|keys|] == Sources(available, keys);
  }
}
