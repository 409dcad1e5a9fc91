// OAuth2 credentials at rest: the three-way merge between windows, and the fingerprint
// that lets a window skip a store which could change nothing.

module OAuth2Merge {
  import opened Text

  /** A token stands for its JSON text, which is what the fingerprint hashes. */
  type Token = string
  type Tokens = map<string, Token>

  function Get(m: Tokens, key: string): Option<Token> {
    if key in m then Some(m[key]) else None
  }

  /** The window changed this key against its baseline: added, replaced or deleted it. */
  predicate Changed(base: Tokens, current: Tokens, key: string) {
    Get(base, key) != Get(current, key)
  }

  /** The pointwise meaning of the delta merge: a changed key takes the window's value,
      every other key keeps the value on disk. */
  function Merge(base: Tokens, current: Tokens, disk: Tokens): (r: Tokens)
    ensures forall k: string :: Get(r, k) == if Changed(base, current, k) then Get(current, k) else Get(disk, k)
  {
    map k | k in disk.Keys + current.Keys && Get(if Changed(base, current, k) then current else disk, k).Some?
      :: Get(if Changed(base, current, k) then current else disk, k).value
  }

  lemma SameEntries(a: Tokens, b: Tokens)
    requires forall k: string :: Get(a, k) == Get(b, k)
    ensures a == b
  {
    forall k
      ensures k in a <==> k in b
      ensures k in a ==> a[k] == b[k]
    {
      assert Get(a, k) == Get(b, k);
    }
  }

  /** m with the key set or deleted. */
  function Put(m: Tokens, key: string, value: Option<Token>): (r: Tokens)
    ensures forall k: string :: Get(r, k) == if k == key then value else Get(m, k)
  {
    if value.Some? then m[key := value.value] else m - {key}
  }

  /** The merge with only the keys of done taken from the window. */
  ghost predicate MergedOn(out: Tokens, done: set<string>, base: Tokens, current: Tokens, disk: Tokens) {
    forall k: string :: Get(out, k) ==
      if k in done && Changed(base, current, k) then Get(current, k) else Get(disk, k)
  }

  lemma MergeOne(out: Tokens, next: Tokens, done: set<string>, k: string, base: Tokens, current: Tokens, disk: Tokens)
    requires MergedOn(out, done, base, current, disk)
    requires next == if Changed(base, current, k) then Put(out, k, Get(current, k)) else out
    ensures MergedOn(next, done + {k}, base, current, disk)
  {
    forall x: string
      ensures Get(next, x) ==
        if x in done + {k} && Changed(base, current, x) then Get(current, x) else Get(disk, x)
    {
      assert Get(out, x) == if x in done && Changed(base, current, x) then Get(current, x) else Get(disk, x);
    }
  }

  /** The two loops of the source: over the baseline, then over the window's own map. */
  method MergeDelta(base: Tokens, current: Tokens, disk: Tokens) returns (out: Tokens)
    ensures out == Merge(base, current, disk)
  {
    out := disk;
    ghost var done: set<string> := {};
    var todo := base.Keys;
    while todo != {}
      invariant todo <= base.Keys && done == base.Keys - todo
      invariant MergedOn(out, done, base, current, disk)
      decreases todo
    {
      var k :| k in todo;
      ghost var before := out;
      if k !in current {
        out := Put(out, k, None);
      } else if base[k] != current[k] {
        out := Put(out, k, Some(current[k]));
      }
      MergeOne(before, out, done, k, base, current, disk);
      todo, done := todo - {k}, done + {k};
    }
    todo := current.Keys;
    while todo != {}
      invariant todo <= current.Keys && done == base.Keys + (current.Keys - todo)
      invariant MergedOn(out, done, base, current, disk)
      decreases todo
    {
      var k :| k in todo;
      if k !in base {
        ghost var before := out;
        out := Put(out, k, Some(current[k]));
        MergeOne(before, out, done, k, base, current, disk);
      }
      todo, done := todo - {k}, done + {k};
    }
    MergedOnAll(out, done, base, current, disk);
  }

  lemma MergedOnAll(out: Tokens, done: set<string>, base: Tokens, current: Tokens, disk: Tokens)
    requires MergedOn(out, done, base, current, disk) && done == base.Keys + current.Keys
    ensures out == Merge(base, current, disk)
  {
    forall k: string
      ensures Get(out, k) == Get(Merge(base, current, disk), k)
    {
      assert Changed(base, current, k) ==> k in done;
    }
    SameEntries(out, Merge(base, current, disk));
  }

  /** A window that changed nothing leaves the disk as it is. */
  lemma NoDeltaNoChange(base: Tokens, disk: Tokens)
    ensures Merge(base, base, disk) == disk
  {
    SameEntries(Merge(base, base, disk), disk);
  }

  ghost predicate DisjointDeltas(b1: Tokens, l1: Tokens, b2: Tokens, l2: Tokens) {
    forall k: string :: !(Changed(b1, l1, k) && Changed(b2, l2, k))
  }

  /** Stores with disjoint deltas commute on disk. */
  lemma DisjointStoresCommute(b1: Tokens, l1: Tokens, b2: Tokens, l2: Tokens, disk: Tokens)
    requires DisjointDeltas(b1, l1, b2, l2)
    ensures Merge(b2, l2, Merge(b1, l1, disk)) == Merge(b1, l1, Merge(b2, l2, disk))
  {
    SameEntries(Merge(b2, l2, Merge(b1, l1, disk)), Merge(b1, l1, Merge(b2, l2, disk)));
  }

  /** Storing again with no edit in between changes nothing, whoever wrote meanwhile. */
  lemma StoreTwice(base: Tokens, current: Tokens, disk: Tokens, later: Tokens)
    ensures var merged := Merge(base, current, disk); Merge(merged, merged, later) == later
  {
    NoDeltaNoChange(Merge(base, current, disk), later);
  }
}

module OAuth2Fingerprint {
  import opened Ordering
  import opened Text
  import opened OAuth2Merge

  const NUL: char := 0 as char

  ghost predicate Enumerates(keys: seq<string>, s: set<string>) {
    Distinct(keys) && Sorted(StringLeq, keys) && forall k :: k in keys <==> k in s
  }

  lemma {:induction false} EnumerationExists(s: set<string>)
    ensures exists keys :: Enumerates(keys, s)
    decreases |s|
  {
    if s == {} {
      assert Enumerates([], s);
    } else {
      var k :| k in s;
      EnumerationExists(s - {k});
      var rest :| Enumerates(rest, s - {k});
      assert k !in rest && Distinct(rest);
      DistinctCons(k, rest);
      SortedEnumeration([k] + rest, s);
    }
  }

  /** Sorting any repetition-free listing of a set enumerates it. */
  lemma SortedEnumeration(keys: seq<string>, s: set<string>)
    requires Distinct(keys) && forall k :: k in keys <==> k in s
    ensures Enumerates(StableSort(StringLeq, keys), s)
  {
    StringOrder();
    SortSorted(StringLeq, keys);
    SortPermutes(StringLeq, keys);
    PermutationDistinct(keys, StableSort(StringLeq, keys));
    forall k
      ensures k in StableSort(StringLeq, keys) <==> k in s
    {
      InSorted(StringLeq, keys, k);
    }
  }

  lemma EnumerationIsUnique(a: seq<string>, b: seq<string>, s: set<string>)
    requires Enumerates(a, s) && Enumerates(b, s)
    ensures a == b
  {
    StringOrder();
    SameElementsPermute(a, b);
    SortedIsUnique(StringLeq, a, b);
  }

  /** The keys in sort.Strings order. */
  ghost function SortedKeys(s: set<string>): (keys: seq<string>)
    ensures Enumerates(keys, s)
  {
    EnumerationExists(s);
    var keys :| Enumerates(keys, s);
    keys
  }

  /** "%d:%s%d:" and then the value. */
  function Entry(key: string, value: string): string {
    Digits(|key|) + ":" + key + Digits(|value|) + ":" + value
  }

  function Entries(keys: seq<string>, m: Tokens): string
    requires forall k <- keys :: k in m
  {
    if keys == [] then [] else Entry(keys[0], m[keys[0]]) + Entries(keys[1..], m)
  }

  ghost function Half(m: Tokens): string {
    Entries(SortedKeys(m.Keys), m) + [NUL]
  }

  /** The bytes the digest is fed. SHA-256 is taken to be free of collisions, so the
      stream stands for its own digest. */
  ghost function Stream(baseline: Tokens, local: Tokens): string {
    Half(baseline) + Half(local)
  }

  // --- reading the stream back ---------------------------------------------------

  function ReadNumber(s: string): (r: Option<(nat, string)>)
    ensures r.Some? ==> |r.value.1| < |s|
  {
    var i := Find(s, ':');
    if i < |s| && AllDigits(s[..i]) then Some((Number(s[..i]), s[i + 1..])) else None
  }

  /** A length-prefixed string. */
  function ReadChunk(s: string): (r: Option<(string, string)>)
    ensures r.Some? ==> |r.value.1| < |s|
  {
    var n := ReadNumber(s);
    if n.Some? && n.value.0 <= |n.value.1| then Some((n.value.1[..n.value.0], n.value.1[n.value.0..]))
    else None
  }

  function ReadHalf(s: string): (r: Option<(Tokens, string)>)
    ensures r.Some? ==> |r.value.1| < |s|
    decreases |s|
  {
    if s == [] then None
    else if s[0] == NUL then Some((map[], s[1..]))
    else
      var key := ReadChunk(s);
      if key.None? then None else
      var value := ReadChunk(key.value.1);
      if value.None? then None else
      var rest := ReadHalf(value.value.1);
      if rest.None? then None
      else Some((rest.value.0[key.value.0 := value.value.0], rest.value.1))
  }

  function ReadStream(s: string): Option<(Tokens, Tokens)> {
    var b := ReadHalf(s);
    if b.None? then None else
    var l := ReadHalf(b.value.1);
    if l.None? || l.value.1 != [] then None else Some((b.value.0, l.value.0))
  }

  lemma ReadChunkBack(chunk: string, rest: string)
    ensures ReadChunk(Digits(|chunk|) + ":" + chunk + rest) == Some((chunk, rest))
  {
    var d := Digits(|chunk|);
    var s := d + ":" + chunk + rest;
    NumberOfDigits(|chunk|);
    DigitsHaveNone(|chunk|, ':');
    FindAppend(d, ':', chunk + rest);
    assert s == d + [':'] + (chunk + rest);
    assert s[..|d|] == d && s[|d| + 1..] == chunk + rest;
    assert (chunk + rest)[..|chunk|] == chunk && (chunk + rest)[|chunk|..] == rest;
  }

  lemma EntryStarts(key: string, value: string, tail: string)
    ensures var chunk := Digits(|value|) + ":" + value + tail;
            var s := Entry(key, value) + tail;
            s == Digits(|key|) + ":" + key + chunk && s != [] && s[0] != NUL
  {
    var d := Digits(|key|);
    assert d[0] in d;
    assert IsDigit(d[0]);
    hide Digits;
    var chunk := Digits(|value|) + ":" + value + tail;
    assert Entry(key, value) + tail == d + ":" + key + chunk;
  }

  lemma ReadEntryBack(key: string, value: string, tail: string)
    requires ReadHalf(tail).Some?
    ensures var rest := ReadHalf(tail).value;
            ReadHalf(Entry(key, value) + tail) == Some((rest.0[key := value], rest.1))
  {
    hide Digits;
    hide ReadChunk;
    EntryStarts(key, value, tail);
    hide Entry;
    ReadChunkBack(key, Digits(|value|) + ":" + value + tail);
    ReadChunkBack(value, tail);
  }

  function Restrict(m: Tokens, keys: seq<string>): Tokens {
    map k | k in m && k in keys :: m[k]
  }

  lemma {:induction false} ReadEntriesBack(keys: seq<string>, m: Tokens, rest: string)
    requires forall k <- keys :: k in m
    ensures ReadHalf(Entries(keys, m) + [NUL] + rest) == Some((Restrict(m, keys), rest))
    decreases |keys|
  {
    if keys == [] {
      assert [] + [NUL] + rest == [NUL] + rest;
      assert ([NUL] + rest)[1..] == rest;
      assert Restrict(m, keys) == map[];
    } else {
      var tail := Entries(keys[1..], m) + [NUL] + rest;
      var key, value := keys[0], m[keys[0]];
      assert Entries(keys, m) + [NUL] + rest == Entry(key, value) + tail;
      ReadEntriesBack(keys[1..], m, rest);
      ReadEntryBack(key, value, tail);
      assert Restrict(m, keys) == Restrict(m, keys[1..])[key := value];
    }
  }

  lemma ReadHalfBack(m: Tokens, rest: string)
    ensures ReadHalf(Half(m) + rest) == Some((m, rest))
  {
    ReadEntriesBack(SortedKeys(m.Keys), m, rest);
    assert Restrict(m, SortedKeys(m.Keys)) == m;
  }

  /** The stream decodes to the pair it was made from: no two pairs share one, whatever
      the keys and values contain. */
  lemma StreamDecodes(baseline: Tokens, local: Tokens)
    ensures ReadStream(Stream(baseline, local)) == Some((baseline, local))
  {
    ReadHalfBack(baseline, Half(local));
    ReadHalfBack(local, []);
    assert Half(local) + [] == Half(local);
  }

  lemma StreamIsInjective(b1: Tokens, l1: Tokens, b2: Tokens, l2: Tokens)
    ensures Stream(b1, l1) == Stream(b2, l2) <==> b1 == b2 && l1 == l2
  {
    StreamDecodes(b1, l1);
    StreamDecodes(b2, l2);
  }

  lemma {:induction false} EntriesAppend(keys: seq<string>, m: Tokens, k: string)
    requires k in m && forall x <- keys :: x in m
    ensures Entries(keys + [k], m) == Entries(keys, m) + Entry(k, m[k])
  {
    if keys == [] {
      assert Entries([k], m) == Entry(k, m[k]) + Entries([], m);
      assert keys + [k] == [k];
    } else {
      assert (keys + [k])[1..] == keys[1..] + [k];
      EntriesAppend(keys[1..], m, k);
    }
  }

  /** Collecting the keys of a map in any order and sorting them. */
  method CollectKeys(m: Tokens) returns (keys: seq<string>)
    ensures keys == SortedKeys(m.Keys)
  {
    keys := [];
    var todo := m.Keys;
    while todo != {}
      invariant todo <= m.Keys && Distinct(keys)
      invariant forall k :: k in keys <==> k in m.Keys - todo
      decreases todo
    {
      var k :| k in todo;
      todo := todo - {k};
      DistinctSnoc(keys, k);
      keys := keys + [k];
    }
    SortedEnumeration(keys, m.Keys);
    EnumerationIsUnique(StableSort(StringLeq, keys), SortedKeys(m.Keys), m.Keys);
    keys := StableSort(StringLeq, keys);
  }

  lemma EntriesGrow(digest: string, keys: seq<string>, i: nat, m: Tokens)
    requires i < |keys| && forall x <- keys :: x in m
    ensures digest + Entries(keys[..i], m) + Entry(keys[i], m[keys[i]]) == digest + Entries(keys[..i + 1], m)
  {
    EntriesAppend(keys[..i], m, keys[i]);
    assert keys[..i + 1] == keys[..i] + [keys[i]];
  }

  lemma EntryText(before: string, key: string, encoded: string)
    ensures before + (Digits(|key|) + ":" + key + Digits(|encoded|) + ":") + encoded == before + Entry(key, encoded)
  {
    hide Digits;
  }

  method WriteHalf(digest: string, values: Tokens) returns (r: string)
    ensures r == digest + Half(values)
  {
    r := digest;
    var keys := CollectKeys(values);
    assert keys[..0] == [];
    ghost var half := Half(values);
    assert half == Entries(keys, values) + [NUL];
    hide Half;
    for i := 0 to |keys|
      invariant forall k <- keys :: k in values
      invariant r == digest + Entries(keys[..i], values)
    {
      var encoded := values[keys[i]];
      EntryText(r, keys[i], encoded);
      EntriesGrow(digest, keys, i, values);
      hide Entry;
      hide Entries;
      hide Digits;
      r := r + (Digits(|keys[i]|) + ":" + keys[i] + Digits(|encoded|) + ":");
      r := r + encoded;
    }
    assert keys[..|keys|] == keys;
    hide Entries;
    r := r + [NUL];
  }

  /** The digest, written half by half and entry by entry. */
  method TokenMapFingerprint(baseline: Tokens, local: Tokens) returns (digest: string)
    ensures digest == Stream(baseline, local)
  {
    digest := WriteHalf([], baseline);
    digest := WriteHalf(digest, local);
  }
}

module OAuth2Windows {
  import opened Text
  import opened OAuth2Merge
  import opened OAuth2Fingerprint

  /** One window: its credentials, what they were when last agreed with the disk, and the
      digest recorded by its last store ("" when there is none). */
  datatype Window = Window(local: Tokens, baseline: Tokens, fingerprint: string)

  datatype World = World(windows: seq<Window>, disk: Tokens)

  /** A failed store leaves the disk alone, except that removing the file of an emptied
      store can land before its directory sync reports a failure. A load is one that finds
      credentials: one that finds no file, or fails, changes nothing and is no action. */
  datatype Action =
    | Edit(w: nat, key: string, value: Option<Token>)
    | Store(w: nat)
    | StoreFails(w: nat, landed: bool)
    | Load(w: nat)

  ghost predicate Gated(w: Window) {
    w.fingerprint != "" && Stream(w.baseline, w.local) == w.fingerprint
  }

  function Merged(w: Window, disk: Tokens): Tokens {
    Merge(w.baseline, w.local, disk)
  }

  ghost function Installed(m: Tokens): Window {
    Window(m, m, Stream(m, m))
  }

  predicate Enabled(s: World, a: Action) {
    a.w < |s.windows| &&
    (a.StoreFails? && a.landed ==> Merged(s.windows[a.w], s.disk) == map[])
  }

  ghost function Step(s: World, a: Action): World
    requires Enabled(s, a)
  {
    var w := s.windows[a.w];
    match a
    case Edit(i, k, v) => s.(windows := s.windows[i := w.(local := Put(w.local, k, v))])
    case Store(i) =>
      if Gated(w) then s
      else World(s.windows[i := Installed(Merged(w, s.disk))], Merged(w, s.disk))
    case StoreFails(i, landed) => if landed && !Gated(w) then s.(disk := Merged(w, s.disk)) else s
    case Load(i) => s.(windows := s.windows[i := w.(local := s.disk, baseline := s.disk)])
  }

  /** The world after the actions, None if one of them was not enabled. */
  ghost function Run(s: World, acts: seq<Action>): Option<World>
    decreases |acts|
  {
    if acts == [] then Some(s) else
    var before := Run(s, acts[..|acts| - 1]);
    var last := acts[|acts| - 1];
    if before.Some? && Enabled(before.value, last) then Some(Step(before.value, last)) else None
  }

  /** A recorded digest is always one of a window whose two maps agreed. */
  ghost predicate WindowOk(w: Window) {
    w.fingerprint == "" || exists m :: w.fingerprint == Stream(m, m)
  }

  ghost predicate WorldOk(s: World) {
    forall w <- s.windows :: WindowOk(w)
  }

  lemma StepKeepsOk(s: World, a: Action)
    requires WorldOk(s) && Enabled(s, a)
    ensures WorldOk(Step(s, a))
  {
    var t := Step(s, a);
    forall i | 0 <= i < |t.windows|
      ensures WindowOk(t.windows[i])
    {
      assert s.windows[i] in s.windows;
      if i == a.w && a.Store? && !Gated(s.windows[i]) {
        var m := Merged(s.windows[i], s.disk);
        assert t.windows[i].fingerprint == Stream(m, m);
      }
    }
  }

  /** The gate fires only when the delta is empty, and skipping then leaves the same disk
      as the full merge, whatever other windows have put there. */
  lemma GateIsSound(w: Window, disk: Tokens)
    requires WindowOk(w) && Gated(w)
    ensures w.baseline == w.local && Merged(w, disk) == disk
  {
    var m :| w.fingerprint == Stream(m, m);
    StreamIsInjective(w.baseline, w.local, m, m);
    NoDeltaNoChange(w.baseline, disk);
  }

  /** After a store, the gate fires exactly as long as neither map has moved. */
  lemma GateFiresExactly(m: Tokens, w: Window)
    requires w.fingerprint == Installed(m).fingerprint
    ensures Gated(w) <==> w.baseline == m && w.local == m
  {
    StreamIsInjective(w.baseline, w.local, m, m);
    assert Stream(m, m)[|Stream(m, m)| - 1] == NUL;
  }

  /** After a store the window's two maps agree, and with the disk too unless it was
      gated; the disk is in every case what the full merge would have written. */
  lemma AgreeAfterStore(s: World, i: nat)
    requires WorldOk(s) && i < |s.windows|
    ensures var t := Step(s, Store(i));
            && t.windows[i].baseline == t.windows[i].local
            && t.disk == Merged(s.windows[i], s.disk)
            && (!Gated(s.windows[i]) ==> t.windows[i].local == t.disk)
  {
    assert s.windows[i] in s.windows;
    if Gated(s.windows[i]) {
      GateIsSound(s.windows[i], s.disk);
    }
  }

  /** What the gate costs: an idle window's store does not pick up what others wrote. */
  lemma GateLeavesIdleWindowStale(t: Token)
    ensures var s0 := World([Installed(map[]), Installed(map[])], map[]);
            var r := Run(s0, [Edit(1, "k", Some(t)), Store(1), Store(0)]);
            r.Some? && r.value.windows[0].local == map[] && r.value.disk == map["k" := t]
  {
    var s0 := World([Installed(map[]), Installed(map[])], map[]);
    var acts := [Edit(1, "k", Some(t)), Store(1), Store(0)];
    assert acts[..2] == [Edit(1, "k", Some(t)), Store(1)] && acts[..2][..1] == [Edit(1, "k", Some(t))] && acts[..2][..1][..0] == [];
    var s1 := Step(s0, Edit(1, "k", Some(t)));
    assert Run(s0, acts[..2][..1]) == Some(s1);
    assert s1.windows[1].local == map["k" := t];
    GateFiresExactly(map[], s1.windows[1]);
    var s2 := Step(s1, Store(1));
    assert Run(s0, acts[..2]) == Some(s2);
    assert s2.disk == map["k" := t] by {
      SameEntries(Merge(map[], map["k" := t], map[]), map["k" := t]);
    }
    GateFiresExactly(map[], s2.windows[0]);
    assert Step(s2, Store(0)) == s2;
  }

  // --- the disk over whole runs ----------------------------------------------------

  /** The action writes the file, and its window had changed the key. */
  ghost predicate Commits(s: World, a: Action, key: string)
    requires Enabled(s, a)
  {
    && (a.Store? || (a.StoreFails? && a.landed && !Gated(s.windows[a.w])))
    && Changed(s.windows[a.w].baseline, s.windows[a.w].local, key)
  }

  lemma StepOnDisk(s: World, a: Action, key: string)
    requires WorldOk(s) && Enabled(s, a)
    ensures Get(Step(s, a).disk, key) ==
            if Commits(s, a, key) then Get(s.windows[a.w].local, key) else Get(s.disk, key)
  {
    assert s.windows[a.w] in s.windows;
    if a.Store? && Gated(s.windows[a.w]) {
      GateIsSound(s.windows[a.w], s.disk);
    }
  }

  /** Action j of a run commits the key. */
  ghost predicate CommitsAt(s: World, acts: seq<Action>, j: nat, key: string)
    requires j < |acts|
  {
    var before := Run(s, acts[..j]);
    before.Some? && Enabled(before.value, acts[j]) && Commits(before.value, acts[j], key)
  }

  /** What action j committed for the key. */
  ghost function CommittedAt(s: World, acts: seq<Action>, j: nat, key: string): Option<Token>
    requires j < |acts| && CommitsAt(s, acts, j, key)
  {
    Get(Run(s, acts[..j]).value.windows[acts[j].w].local, key)
  }

  ghost predicate NoCommitFrom(s: World, acts: seq<Action>, from: nat, key: string) {
    forall i :: from <= i < |acts| ==> !CommitsAt(s, acts, i, key)
  }

  lemma {:induction false} RunKeepsOk(s: World, acts: seq<Action>)
    requires WorldOk(s) && Run(s, acts).Some?
    ensures WorldOk(Run(s, acts).value)
    decreases |acts|
  {
    if acts != [] {
      var init := acts[..|acts| - 1];
      RunKeepsOk(s, init);
      StepKeepsOk(Run(s, init).value, acts[|acts| - 1]);
    }
  }

  lemma PrefixCommits(s: World, acts: seq<Action>, n: nat, key: string)
    requires n <= |acts|
    ensures forall i :: 0 <= i < n ==> CommitsAt(s, acts[..n], i, key) == CommitsAt(s, acts, i, key)
  {
    forall i | 0 <= i < n
      ensures CommitsAt(s, acts[..n], i, key) == CommitsAt(s, acts, i, key)
    {
      assert acts[..n][..i] == acts[..i];
    }
  }

  lemma LastStep(s: World, acts: seq<Action>, key: string)
    requires WorldOk(s) && Run(s, acts).Some? && acts != []
    ensures var n := |acts| - 1;
            && Run(s, acts[..n]).Some?
            && Get(Run(s, acts).value.disk, key) ==
               if CommitsAt(s, acts, n, key) then CommittedAt(s, acts, n, key) else Get(Run(s, acts[..n]).value.disk, key)
  {
    var n := |acts| - 1;
    RunKeepsOk(s, acts[..n]);
    StepOnDisk(Run(s, acts[..n]).value, acts[n], key);
  }

  /** For any number of windows and any interleaving of edits, loads and stores, a key on
      disk is what the last store whose window had changed it committed; if there was no
      such store it never moved. */
  lemma {:induction false} DiskIsLastCommit(s: World, acts: seq<Action>, key: string)
    requires WorldOk(s) && Run(s, acts).Some?
    ensures var disk := Run(s, acts).value.disk;
            || (NoCommitFrom(s, acts, 0, key) && Get(disk, key) == Get(s.disk, key))
            || (exists j :: 0 <= j < |acts| && CommitsAt(s, acts, j, key) && NoCommitFrom(s, acts, j + 1, key)
                            && Get(disk, key) == CommittedAt(s, acts, j, key))
    decreases |acts|
  {
    if acts != [] {
      var n := |acts| - 1;
      LastStep(s, acts, key);
      hide Run;
      hide Get;
      hide CommitsAt;
      hide CommittedAt;
      hide WorldOk;
      if CommitsAt(s, acts, n, key) {
        assert NoCommitFrom(s, acts, n + 1, key);
      } else {
        DiskIsLastCommit(s, acts[..n], key);
        if NoCommitFrom(s, acts[..n], 0, key) {
          PrefixCommits(s, acts, n, key);
          assert NoCommitFrom(s, acts, 0, key);
        } else {
          var j :| 0 <= j < n && CommitsAt(s, acts[..n], j, key) && NoCommitFrom(s, acts[..n], j + 1, key)
                   && Get(Run(s, acts[..n]).value.disk, key) == CommittedAt(s, acts[..n], j, key);
          LastCommitExtends(s, acts, j, key);
        }
      }
    }
  }

  lemma PrefixCommitted(s: World, acts: seq<Action>, n: nat, j: nat, key: string)
    requires j < n <= |acts|
    ensures CommitsAt(s, acts[..n], j, key) == CommitsAt(s, acts, j, key)
    ensures CommitsAt(s, acts, j, key) ==> CommittedAt(s, acts, j, key) == CommittedAt(s, acts[..n], j, key)
  {
    assert acts[..n][..j] == acts[..j];
  }

  lemma LastCommitExtends(s: World, acts: seq<Action>, j: nat, key: string)
    requires acts != [] && j < |acts| - 1
    requires !CommitsAt(s, acts, |acts| - 1, key)
    requires CommitsAt(s, acts[..|acts| - 1], j, key) && NoCommitFrom(s, acts[..|acts| - 1], j + 1, key)
    ensures CommitsAt(s, acts, j, key) && NoCommitFrom(s, acts, j + 1, key)
    ensures CommittedAt(s, acts, j, key) == CommittedAt(s, acts[..|acts| - 1], j, key)
  {
    hide CommitsAt;
    hide CommittedAt;
    hide Run;
    var n := |acts| - 1;
    PrefixCommitted(s, acts, n, j, key);
    forall i | j < i < |acts|
      ensures !CommitsAt(s, acts, i, key)
    {
      if i < n {
        PrefixCommitted(s, acts, n, i, key);
      }
    }
  }

  /** A load brings a window in step with the disk, key by key, and touches nothing else. */
  lemma LoadedIsDisk(s: World, i: nat, key: string)
    requires i < |s.windows|
    ensures var t := Step(s, Load(i));
            && Get(t.windows[i].local, key) == Get(s.disk, key)
            && Get(t.windows[i].baseline, key) == Get(s.disk, key)
            && t.windows[i].fingerprint == s.windows[i].fingerprint && Get(t.disk, key) == Get(s.disk, key)
  {
  }

  /** So after any run a window that loads holds, for each key, what the last store whose
      window had changed it committed. */
  lemma LoadSeesLastCommit(s: World, acts: seq<Action>, i: nat, key: string)
    requires WorldOk(s) && Run(s, acts).Some? && i < |s.windows|
    ensures Run(s, acts + [Load(i)]).Some? && |Run(s, acts + [Load(i)]).value.windows| == |s.windows|
    ensures var w := Run(s, acts + [Load(i)]).value.windows[i];
            Get(w.local, key) == Get(w.baseline, key) &&
            ((NoCommitFrom(s, acts, 0, key) && Get(w.local, key) == Get(s.disk, key)) ||
             (exists j :: 0 <= j < |acts| && CommitsAt(s, acts, j, key) && NoCommitFrom(s, acts, j + 1, key)
                          && Get(w.local, key) == CommittedAt(s, acts, j, key)))
  {
    var all := acts + [Load(i)];
    assert all[..|acts|] == acts && all[|acts|] == Load(i);
    WindowCount(s, acts);
    DiskIsLastCommit(s, acts, key);
    LoadedIsDisk(Run(s, acts).value, i, key);
    assert Run(s, all) == Some(Step(Run(s, acts).value, Load(i)));
    hide Run;
    hide Get;
    hide CommitsAt;
    hide CommittedAt;
    hide NoCommitFrom;
    hide WorldOk;
  }

  /** A failed store loses nothing: its window stays as it was, and storing again gives the
      world the store would have given. */
  lemma FailedStoreCanBeRetried(s: World, i: nat, landed: bool)
    requires WorldOk(s) && Enabled(s, StoreFails(i, landed))
    ensures var t := Step(s, StoreFails(i, landed));
            t.windows == s.windows && Step(t, Store(i)) == Step(s, Store(i))
  {
    var t, w := Step(s, StoreFails(i, landed)), s.windows[i];
    if landed && !Gated(w) {
      forall k: string
        ensures Get(Merged(w, t.disk), k) == Get(Merged(w, s.disk), k)
      {
      }
      SameEntries(Merged(w, t.disk), Merged(w, s.disk));
    }
  }

  /** An action of one window leaves the others as they are. */
  lemma OthersUntouched(s: World, a: Action, j: nat)
    requires Enabled(s, a) && j < |s.windows| && j != a.w
    ensures |Step(s, a).windows| == |s.windows| && Step(s, a).windows[j] == s.windows[j]
  {
  }

  /** An edit shows in its window under its key alone, and counts as a change exactly when
      the baseline says otherwise. */
  lemma EditShows(s: World, i: nat, key: string, value: Option<Token>, other: string)
    requires i < |s.windows|
    ensures var t := Step(s, Edit(i, key, value)).windows[i];
            && Get(t.local, other) == (if other == key then value else Get(s.windows[i].local, other))
            && t.baseline == s.windows[i].baseline && t.fingerprint == s.windows[i].fingerprint
            && (Changed(t.baseline, t.local, key) <==> value != Get(s.windows[i].baseline, key))
  {
  }

  predicate Edits(a: Action, i: nat, key: string) {
    a.Edit? && a.w == i && a.key == key
  }

  /** A window that was in step on a key and has not edited it never counts as having
      changed it, whatever it stores, loads, or others do. */
  lemma {:induction false} UneditedKeyIsUnchanged(s: World, acts: seq<Action>, i: nat, key: string)
    requires WorldOk(s) && Run(s, acts).Some? && i < |s.windows|
    requires !Changed(s.windows[i].baseline, s.windows[i].local, key)
    requires forall a <- acts :: !Edits(a, i, key)
    ensures var t := Run(s, acts).value;
            |t.windows| == |s.windows| && !Changed(t.windows[i].baseline, t.windows[i].local, key)
    decreases |acts|
  {
    if acts != [] {
      assert acts[|acts| - 1] in acts;
      UneditedKeyIsUnchanged(s, acts[..|acts| - 1], i, key);
    }
  }

  /** So a key that no window edits stays as it is on disk through every run. */
  lemma {:induction false} UneditedKeyStays(s: World, acts: seq<Action>, key: string)
    requires WorldOk(s) && Run(s, acts).Some?
    requires forall i :: 0 <= i < |s.windows| ==> !Changed(s.windows[i].baseline, s.windows[i].local, key)
    requires forall a <- acts, i: nat :: !Edits(a, i, key)
    ensures Get(Run(s, acts).value.disk, key) == Get(s.disk, key)
    decreases |acts|
  {
    if acts != [] {
      var init, last := acts[..|acts| - 1], acts[|acts| - 1];
      var before := Run(s, init).value;
      assert last in acts;
      RunKeepsOk(s, init);
      UneditedKeyStays(s, init, key);
      WindowCount(s, init);
      UneditedKeyIsUnchanged(s, init, last.w, key);
      StepOnDisk(before, last, key);
    }
  }

  lemma {:induction false} WindowCount(s: World, acts: seq<Action>)
    requires Run(s, acts).Some?
    ensures |Run(s, acts).value.windows| == |s.windows|
    decreases |acts|
  {
    if acts != [] {
      WindowCount(s, acts[..|acts| - 1]);
    }
  }

  // --- the store as the source runs it ---------------------------------------------

  class CredentialsFile {
    var entries: Tokens

    constructor (entries: Tokens)
      ensures this.entries == entries
    {
      this.entries := entries;
    }
  }

  /** What a load finds: no file or a blank one, one it cannot use, or the entries. */
  datatype Reading = Absent | Unreadable | Readable

  class CredentialWindow {
    var oauth2: Tokens
    var oauth2Baseline: Tokens
    var oauth2Fingerprint: string

    function AsWindow(): Window
      reads this
    {
      Window(oauth2, oauth2Baseline, oauth2Fingerprint)
    }

    constructor ()
      ensures AsWindow() == Window(map[], map[], "")
    {
      oauth2, oauth2Baseline, oauth2Fingerprint := map[], map[], "";
    }

    /** Loading what could be read replaces both maps and leaves a recorded digest where it
        is. A missing or blank file, and one that cannot be read, parsed or decrypted,
        leaves the window as it was; only the latter is an error. */
    method LoadCredentials(file: CredentialsFile, reading: Reading) returns (ok: bool)
      modifies this
      ensures ok <==> !reading.Unreadable?
      ensures var before := old(World([AsWindow()], file.entries));
              World([AsWindow()], file.entries) == if reading.Readable? then Step(before, Load(0)) else before
      ensures reading.Readable? ==> oauth2 == file.entries && oauth2Baseline == file.entries
    {
      if reading.Absent? {
        return true;
      }
      if reading.Unreadable? {
        return false;
      }
      oauth2, oauth2Baseline := file.entries, file.entries;
      return true;
    }

    /** Reading, decrypting, encrypting and writing the file may each fail; a store that
        fails leaves the window as it was. */
    method StoreCredentials(file: CredentialsFile, readOk: bool, writeOk: bool) returns (ok: bool)
      modifies this, file
      ensures ok <==> old(Gated(AsWindow())) || (readOk && writeOk)
      ensures World([AsWindow()], file.entries) ==
              Step(old(World([AsWindow()], file.entries)), if ok then Store(0) else StoreFails(0, false))
    {
      var baseline, local := oauth2Baseline, oauth2;
      var fingerprint := TokenMapFingerprint(baseline, local);
      if fingerprint != "" && fingerprint == oauth2Fingerprint {
        return true;
      }
      if !readOk {
        return false;
      }
      var merged := MergeDelta(baseline, local, file.entries);
      if !writeOk {
        return false;
      }
      file.entries := merged;
      oauth2, oauth2Baseline := merged, merged;
      oauth2Fingerprint := TokenMapFingerprint(oauth2Baseline, oauth2);
      return true;
    }
  }
}
