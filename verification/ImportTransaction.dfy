// Applying a batch of imported collections to the filesystem, and undoing it: backups,
// staging directories and renames, any of which the operating system may refuse.

module ImportTransaction {
  import opened Text

  /** The top-level directories an import touches. Backup and staging names carry an id
      no other path has, as newID and MkdirTemp promise. */
  datatype Path = Target(name: string) | Backup(name: string, id: nat) | Staging(name: string, id: nat)

  /** The content of a directory. */
  type Tree = nat

  type Files = map<Path, Tree>

  datatype Mutation = Mutation(target: Path, backup: Option<Path>)

  function At(fs: Files, p: Path): Option<Tree> {
    if p in fs then Some(fs[p]) else None
  }

  function Put(fs: Files, p: Path, t: Option<Tree>): (r: Files)
    ensures forall q: Path :: At(r, q) == if q == p then t else At(fs, q)
  {
    if t.Some? then fs[p := t.value] else fs - {p}
  }

  // --- what the operating system answers ---------------------------------------------

  /** One os.RemoveAll: a refusal may already have removed part or all of the tree. */
  datatype Attempt = Removed | Refused(left: Option<Tree>)

  lemma PutTwice(fs: Files, p: Path, t: Option<Tree>, u: Option<Tree>)
    ensures Put(Put(fs, p, t), p, u) == Put(fs, p, u)
  {
  }

  /** Two attempts; a path that is not there counts as removed. */
  function Remove(fs: Files, p: Path, first: Attempt, second: Attempt): (r: (Files, bool))
    ensures r.1 ==> r.0 == Put(fs, p, None)
    ensures forall q: Path :: q != p ==> At(r.0, q) == At(fs, q)
    ensures first.Removed? || second.Removed? ==> r.1
    ensures p !in fs ==> r.1
  {
    if p !in fs || first.Removed? then (Put(fs, p, None), true)
    else
      var once := Put(fs, p, first.left);
      if p !in once || second.Removed? then (Put(fs, p, None), true)
      else (Put(fs, p, second.left), false)
  }

  /** os.Rename: it fails when refused, without a source, or onto a directory with content. */
  function Rename(fs: Files, src: Path, dst: Path, refused: bool): (r: (Files, bool))
    requires src != dst
    ensures r.1 <==> !refused && src in fs && dst !in fs
    ensures !r.1 ==> r.0 == fs
    ensures r.1 ==> forall q: Path ::
              At(r.0, q) == if q == dst then At(fs, src) else if q == src then None else At(fs, q)
  {
    if refused || src !in fs || dst in fs then (fs, false)
    else (Put(Put(fs, dst, Some(fs[src])), src, None), true)
  }

  // --- rollback -------------------------------------------------------------------------

  datatype UndoFault = UndoFault(first: Attempt, second: Attempt, renameRefused: bool)

  predicate NoFault(f: UndoFault) {
    (f.first.Removed? || f.second.Removed?) && !f.renameRefused
  }

  /** A mutation is well formed: its target is a collection, its backup a backup name. */
  predicate Shaped(m: Mutation) {
    m.target.Target? && (m.backup.Some? ==> m.backup.value.Backup?)
  }

  /** Undoing one mutation, and whether a replaced collection could not be put back. A new
      collection that cannot be removed is not reported. */
  function Undo(fs: Files, m: Mutation, f: UndoFault): (r: (Files, bool))
    requires Shaped(m)
  {
    var removed := Remove(fs, m.target, f.first, f.second);
    if !removed.1 then (removed.0, m.backup.Some?)
    else if m.backup.None? then (removed.0, false)
    else
      var renamed := Rename(removed.0, m.backup.value, m.target, f.renameRefused);
      (renamed.0, !renamed.1)
  }

  /** The whole batch in reverse; fault i is what the system answers for mutation i. */
  function Rollback(fs: Files, muts: seq<Mutation>, faults: nat -> UndoFault): (r: (Files, bool))
    requires forall k :: 0 <= k < |muts| ==> Shaped(muts[k])
    decreases |muts|
  {
    if muts == [] then (fs, false) else
    var last := |muts| - 1;
    var one := Undo(fs, muts[last], faults(last));
    var rest := Rollback(one.0, muts[..last], faults);
    (rest.0, one.1 || rest.1)
  }

  ghost predicate WellFormed(muts: seq<Mutation>) {
    && (forall k :: 0 <= k < |muts| ==> Shaped(muts[k]))
    && (forall i, j :: 0 <= i < j < |muts| && muts[i].backup.Some? ==> muts[i].backup != muts[j].backup)
  }

  /** The first mutation of a target, or the length of the batch. */
  function First(muts: seq<Mutation>, p: Path): (i: nat)
    ensures i <= |muts|
    ensures i < |muts| ==> muts[i].target == p
    ensures forall j :: 0 <= j < i ==> muts[j].target != p
  {
    if muts == [] || muts[0].target == p then 0 else 1 + First(muts[1..], p)
  }

  lemma FirstPrefix(muts: seq<Mutation>, p: Path)
    requires muts != []
    ensures var n := |muts| - 1;
            First(muts, p) == if First(muts[..n], p) < n then First(muts[..n], p)
                              else if muts[n].target == p then n else n + 1
  {
    hide First;
    var n := |muts| - 1;
    assert forall k :: 0 <= k < n ==> muts[..n][k] == muts[k];
  }

  lemma UndoFrame(fs: Files, m: Mutation, f: UndoFault, p: Path)
    requires Shaped(m) && p != m.target && m.backup != Some(p)
    ensures At(Undo(fs, m, f).0, p) == At(fs, p)
  {
  }

  lemma {:induction false} RollbackFrame(fs: Files, muts: seq<Mutation>, faults: nat -> UndoFault, p: Path)
    requires forall k :: 0 <= k < |muts| ==> Shaped(muts[k]) && p != muts[k].target && muts[k].backup != Some(p)
    ensures At(Rollback(fs, muts, faults).0, p) == At(fs, p)
    decreases |muts|
  {
    if muts != [] {
      var last := |muts| - 1;
      UndoFrame(fs, muts[last], faults(last), p);
      RollbackFrame(Undo(fs, muts[last], faults(last)).0, muts[..last], faults, p);
    }
  }

  /** What a target held before the batch is in the backup of its first replacement. After
      any rollback it is still there or back in place, and a rollback that reports no
      failure has put it back, however often the batch replaced the same target. */
  lemma {:induction false} ReplacedIsBackOrKept(fs: Files, muts: seq<Mutation>, faults: nat -> UndoFault, p: Path, tree: Tree)
    requires WellFormed(muts) && First(muts, p) < |muts|
    requires muts[First(muts, p)].backup.Some? && At(fs, muts[First(muts, p)].backup.value) == Some(tree)
    ensures var r := Rollback(fs, muts, faults);
            && (At(r.0, p) == Some(tree) || At(r.0, muts[First(muts, p)].backup.value) == Some(tree))
            && (!r.1 ==> At(r.0, p) == Some(tree))
    decreases |muts|
  {
    var last := |muts| - 1;
    var i := First(muts, p);
    var b := muts[i].backup.value;
    var one := Undo(fs, muts[last], faults(last));
    FirstPrefix(muts, p);
    if i < last {
      UndoFrame(fs, muts[last], faults(last), b);
      ReplacedIsBackOrKept(one.0, muts[..last], faults, p, tree);
    } else {
      RollbackFrame(one.0, muts[..last], faults, p);
      RollbackFrame(one.0, muts[..last], faults, b);
    }
  }

  /** A collection the batch created is gone when nothing refused. */
  lemma {:induction false} CreatedIsGone(fs: Files, muts: seq<Mutation>, faults: nat -> UndoFault, p: Path)
    requires WellFormed(muts) && First(muts, p) < |muts| && muts[First(muts, p)].backup.None? && p.Target?
    requires forall i: nat :: NoFault(faults(i))
    ensures p !in Rollback(fs, muts, faults).0
    decreases |muts|
  {
    var last := |muts| - 1;
    var one := Undo(fs, muts[last], faults(last));
    FirstPrefix(muts, p);
    if First(muts, p) < last {
      CreatedIsGone(one.0, muts[..last], faults, p);
    } else {
      RollbackFrame(one.0, muts[..last], faults, p);
    }
  }

  /** And so is every backup. */
  lemma {:induction false} BackupsAreGone(fs: Files, muts: seq<Mutation>, faults: nat -> UndoFault, j: nat)
    requires WellFormed(muts) && j < |muts| && muts[j].backup.Some?
    requires forall i: nat :: NoFault(faults(i))
    ensures muts[j].backup.value !in Rollback(fs, muts, faults).0
    decreases |muts|
  {
    var last := |muts| - 1;
    var one := Undo(fs, muts[last], faults(last));
    if j < last {
      BackupsAreGone(one.0, muts[..last], faults, j);
    } else {
      RollbackFrame(one.0, muts[..last], faults, muts[j].backup.value);
    }
  }

  /** Nothing is reported when nothing refused to put a replaced collection back and every
      backup is there; a new collection that stays is not reported. */
  lemma {:induction false} NoFaultNoError(fs: Files, muts: seq<Mutation>, faults: nat -> UndoFault)
    requires WellFormed(muts) && forall k :: 0 <= k < |muts| && muts[k].backup.Some? ==> NoFault(faults(k))
    requires forall k :: 0 <= k < |muts| && muts[k].backup.Some? ==> muts[k].backup.value in fs
    ensures !Rollback(fs, muts, faults).1
    decreases |muts|
  {
    if muts != [] {
      var last := |muts| - 1;
      var one := Undo(fs, muts[last], faults(last));
      forall k | 0 <= k < last && muts[k].backup.Some?
        ensures muts[..last][k].backup.value in one.0
      {
        UndoFrame(fs, muts[last], faults(last), muts[k].backup.value);
        assert At(one.0, muts[k].backup.value) == At(fs, muts[k].backup.value);
      }
      NoFaultNoError(one.0, muts[..last], faults);
    }
  }

  // --- one collection -----------------------------------------------------------------

  datatype Conflict = SkipIt | Replace | KeepBoth

  datatype Selection = Selection(name: string, action: Conflict, tree: Tree)

  datatype Fault = Fault(
    lstatFails: bool, symlink: bool, backupRefused: bool, mkdirFails: bool, writeFails: bool,
    installRefused: bool, putBackRefused: bool, first: Attempt, second: Attempt)

  datatype Result = Applied(m: Mutation) | Skipped | Failed

  /** Stage, write, rename into place; the staging directory is removed on every path. */
  function Materialize(fs: Files, target: Path, tree: Tree, id: nat, f: Fault): (r: (Files, bool))
    requires target.Target?
  {
    if f.mkdirFails then (fs, false)
    else
      var staging := Staging(target.name, id);
      var staged := Put(fs, staging, Some(tree));
      var installed := if f.writeFails then (staged, false) else Rename(staged, staging, target, f.installRefused);
      (Remove(installed.0, staging, f.first, f.second).0, installed.1)
  }

  function Candidate(name: string, ordinal: nat): Path {
    Target(name + " " + Digits(ordinal))
  }

  lemma CandidatesDiffer(name: string, i: nat, j: nat)
    requires Candidate(name, i) == Candidate(name, j)
    ensures i == j
  {
    NumberOfDigits(i);
    NumberOfDigits(j);
    var prefix := name + " ";
    assert (prefix + Digits(i))[|prefix|..] == Digits(i);
    assert (prefix + Digits(j))[|prefix|..] == Digits(j);
  }

  /** The first ordinal from n on whose name is free. */
  function FreeOrdinal(fs: Files, name: string, n: nat, ghost taken: set<Path>): (r: nat)
    requires taken <= fs.Keys && forall p <- taken :: exists i: nat :: i < n && p == Candidate(name, i)
    ensures r >= n && Candidate(name, r) !in fs
    ensures forall i: nat :: n <= i < r ==> Candidate(name, i) in fs
    decreases fs.Keys - taken
  {
    var c := Candidate(name, n);
    if c !in fs then n
    else
      assert c !in taken by {
        if c in taken {
          var i: nat :| i < n && c == Candidate(name, i);
          CandidatesDiffer(name, i, n);
        }
      }
      FreeOrdinal(fs, name, n + 1, taken + {c})
  }

  function Install(fs: Files, target: Path, tree: Tree, id: nat, f: Fault): (Files, Result)
    requires target.Target?
  {
    var r := Materialize(fs, target, tree, id, f);
    (r.0, if r.1 then Applied(Mutation(target, None)) else Failed)
  }

  /** Replacing: move the collection aside, install the new one, and on failure move the
      old one back. The answer of that last rename is dropped. */
  function ReplaceOne(fs: Files, target: Path, tree: Tree, id: nat, f: Fault): (Files, Result)
    requires target.Target?
  {
    var backup := Backup(target.name, id);
    var aside := Rename(fs, target, backup, f.backupRefused);
    if !aside.1 then (fs, Failed)
    else
      var r := Materialize(aside.0, target, tree, id, f);
      if r.1 then (r.0, Applied(Mutation(target, Some(backup))))
      else (Rename(r.0, backup, target, f.putBackRefused).0, Failed)
  }

  function ApplyOne(fs: Files, s: Selection, id: nat, f: Fault): (Files, Result) {
    var target := Target(s.name);
    if f.lstatFails then (fs, Failed)
    else if target !in fs then Install(fs, target, s.tree, id, f)
    else if f.symlink then (fs, Failed)
    else match s.action
      case SkipIt => (fs, Skipped)
      case Replace => ReplaceOne(fs, target, s.tree, id, f)
      case KeepBoth => Install(fs, Candidate(s.name, FreeOrdinal(fs, s.name, 2, {})), s.tree, id, f)
  }

  /** No backup or staging path carries this id or a later one. */
  ghost predicate FreshFrom(fs: Files, id: nat) {
    forall p <- fs :: p.Target? || p.id < id
  }

  /** The replaced collection was moved aside, could not be installed over, and its move
      back was refused. */
  ghost predicate PutBackFails(fs: Files, s: Selection, f: Fault) {
    && !f.lstatFails && !f.symlink && s.action.Replace? && Target(s.name) in fs && !f.backupRefused
    && (f.mkdirFails || f.writeFails || f.installRefused) && f.putBackRefused
  }

  /** Outside its own staging directories, b holds what a does except at p and q. */
  ghost predicate SameBut(a: Files, b: Files, p: Path, q: Path) {
    forall x: Path :: !x.Staging? && x != p && x != q ==> At(b, x) == At(a, x)
  }

  ghost predicate Unmoved(a: Files, b: Files) {
    forall x: Path :: !x.Staging? ==> At(b, x) == At(a, x)
  }

  /** Staging directories come and go under this id only. */
  ghost predicate StagingUnder(a: Files, b: Files, id: nat) {
    forall x: Path :: x.Staging? && x.id != id ==> At(b, x) == At(a, x)
  }

  /** The mutation happened: a new target, or a target whose old content is in the backup. */
  ghost predicate Happened(a: Files, m: Mutation, tree: Tree, id: nat, b: Files) {
    && Shaped(m)
    && At(b, m.target) == Some(tree)
    && if m.backup.None? then m.target !in a && SameBut(a, b, m.target, m.target)
       else && m.backup.value == Backup(m.target.name, id)
            && m.target in a && At(b, m.backup.value) == At(a, m.target)
            && SameBut(a, b, m.target, m.backup.value)
  }

  /** The collection was moved aside and not put back. */
  ghost predicate MovedAside(a: Files, name: string, id: nat, b: Files) {
    && Target(name) in a && Target(name) !in b
    && At(b, Backup(name, id)) == At(a, Target(name))
    && SameBut(a, b, Target(name), Backup(name, id))
  }

  lemma MaterializeEffect(fs: Files, target: Path, tree: Tree, id: nat, f: Fault)
    requires target.Target? && target !in fs && Staging(target.name, id) !in fs
    ensures var r := Materialize(fs, target, tree, id, f);
            && (r.1 <==> !f.mkdirFails && !f.writeFails && !f.installRefused)
            && At(r.0, target) == (if r.1 then Some(tree) else None)
            && SameBut(fs, r.0, target, target) && StagingUnder(fs, r.0, id)
            && (r.1 || f.first.Removed? || f.second.Removed? ==> Staging(target.name, id) !in r.0)
            && (forall x: Path :: x.Staging? && x in r.0 && x !in fs ==> x == Staging(target.name, id))
  {
  }

  lemma ReplaceEffect(fs: Files, target: Path, tree: Tree, id: nat, f: Fault)
    requires target.Target? && target in fs && FreshFrom(fs, id)
    ensures var r := ReplaceOne(fs, target, tree, id, f);
            && StagingUnder(fs, r.0, id) && FreshFrom(r.0, id + 1)
            && (r.1.Applied? ==> Happened(fs, r.1.m, tree, id, r.0) && r.1.m.target == target && r.1.m.backup.Some?)
            && (!r.1.Applied? ==> r.1.Failed?)
            && (r.1.Failed? ==> if !f.backupRefused && f.putBackRefused then MovedAside(fs, target.name, id, r.0)
                                else Unmoved(fs, r.0))
            && (r.1.Applied? || f.first.Removed? || f.second.Removed? || f.backupRefused ==> Staging(target.name, id) !in r.0)
  {
    var backup := Backup(target.name, id);
    assert backup !in fs && Staging(target.name, id) !in fs;
    var aside := Rename(fs, target, backup, f.backupRefused);
    if aside.1 {
      MaterializeEffect(aside.0, target, tree, id, f);
    }
  }

  /** The effect of one collection, for every answer of the system. */
  lemma ApplyOneEffect(fs: Files, s: Selection, id: nat, f: Fault)
    requires FreshFrom(fs, id)
    ensures var r := ApplyOne(fs, s, id, f);
            && StagingUnder(fs, r.0, id) && FreshFrom(r.0, id + 1)
            && (r.1.Applied? ==> Happened(fs, r.1.m, s.tree, id, r.0) && (r.1.m.backup.Some? ==> r.1.m.target == Target(s.name)))
            && (r.1.Skipped? ==> r.0 == fs && Target(s.name) in fs && s.action.SkipIt?)
            && (r.1.Failed? ==> if PutBackFails(fs, s, f) then MovedAside(fs, s.name, id, r.0) else Unmoved(fs, r.0))
            && (PutBackFails(fs, s, f) ==> r.1.Failed?)
            && (r.1.Applied? || f.first.Removed? || f.second.Removed? ==>
                  forall x: Path :: x.Staging? && x.id == id ==> x !in r.0)
  {
    var target := Target(s.name);
    if !f.lstatFails {
      if target !in fs {
        MaterializeEffect(fs, target, s.tree, id, f);
      } else if !f.symlink {
        match s.action
        case SkipIt =>
        case Replace => ReplaceEffect(fs, target, s.tree, id, f);
        case KeepBoth =>
          MaterializeEffect(fs, Candidate(s.name, FreeOrdinal(fs, s.name, 2, {})), s.tree, id, f);
      }
    }
  }

  // --- a batch ---------------------------------------------------------------------------

  /** Where a batch stopped: the selection that failed, its id, and the files before it. */
  datatype Stop = Stop(s: Selection, id: nat, before: Files)

  datatype BatchEnd = BatchEnd(fs: Files, muts: seq<Mutation>, stop: Option<Stop>)

  /** The selections in order, one id each; fault(id) is what the system answers. */
  function RunBatch(fs: Files, sels: seq<Selection>, id: nat, faults: nat -> Fault, muts: seq<Mutation>): BatchEnd
    decreases |sels|
  {
    if sels == [] then BatchEnd(fs, muts, None) else
    var r := ApplyOne(fs, sels[0], id, faults(id));
    match r.1
    case Applied(m) => RunBatch(r.0, sels[1..], id + 1, faults, muts + [m])
    case Skipped => RunBatch(r.0, sels[1..], id + 1, faults, muts)
    case Failed => BatchEnd(r.0, muts, Some(Stop(sels[0], id, fs)))
  }

  lemma BatchDone(fs: Files, sels: seq<Selection>, id: nat, faults: nat -> Fault, muts: seq<Mutation>)
    ensures RunBatch(fs, sels[|sels|..], id, faults, muts) == BatchEnd(fs, muts, None)
  {
  }

  lemma BatchUnrolls(fs: Files, sels: seq<Selection>, i: nat, id: nat, faults: nat -> Fault, muts: seq<Mutation>, r: (Files, Result))
    requires i < |sels| && r == ApplyOne(fs, sels[i], id + i, faults(id + i))
    ensures RunBatch(fs, sels[i..], id + i, faults, muts) ==
            if r.1.Failed? then BatchEnd(r.0, muts, Some(Stop(sels[i], id + i, fs)))
            else RunBatch(r.0, sels[i + 1..], id + i + 1, faults, muts + if r.1.Applied? then [r.1.m] else [])
  {
    assert sels[i..][0] == sels[i] && sels[i..][1..] == sels[i + 1..];
    assert muts + [] == muts;
  }

  /** Where the content a path had before the batch is now. */
  ghost predicate Kept(fs0: Files, fs: Files, muts: seq<Mutation>, p: Path) {
    var i := First(muts, p);
    if i == |muts| then At(fs, p) == At(fs0, p)
    else muts[i].backup.Some? && At(fs, muts[i].backup.value) == At(fs0, p)
  }

  /** A path the batch has brought into being. */
  ghost predicate Made(muts: seq<Mutation>, p: Path) {
    || (p.Target? && First(muts, p) < |muts| && muts[First(muts, p)].backup.None?)
    || (exists j :: 0 <= j < |muts| && muts[j].backup == Some(p))
  }

  ghost predicate BackupIDs(muts: seq<Mutation>, from: nat, to: nat) {
    forall k :: 0 <= k < |muts| && muts[k].backup.Some? ==>
      muts[k].backup.value.Backup? && from <= muts[k].backup.value.id < to
  }

  ghost predicate BackupsThere(fs: Files, muts: seq<Mutation>) {
    forall k :: 0 <= k < |muts| && muts[k].backup.Some? ==> muts[k].backup.value in fs
  }

  ghost predicate NoNewStaging(fs0: Files, fs: Files) {
    forall x: Path :: x.Staging? ==> At(fs, x) == At(fs0, x)
  }

  /** A mutated target is there, and was replaced first exactly if the batch found it. */
  ghost predicate FirstKind(fs0: Files, fs: Files, muts: seq<Mutation>, p: Path) {
    p in fs && First(muts, p) < |muts| && (muts[First(muts, p)].backup.Some? <==> p in fs0)
  }

  /** What holds between the files before a batch that started at id0 and the files now. */
  ghost predicate Tracks(fs0: Files, id0: nat, fs: Files, muts: seq<Mutation>, id: nat) {
    && id0 <= id && FreshFrom(fs0, id0) && FreshFrom(fs, id)
    && WellFormed(muts) && BackupIDs(muts, id0, id) && BackupsThere(fs, muts)
    && (forall k :: 0 <= k < |muts| ==> FirstKind(fs0, fs, muts, muts[k].target))
    && (forall p :: p in fs0 && !p.Staging? ==> Kept(fs0, fs, muts, p))
    && (forall p :: p in fs && p !in fs0 && !p.Staging? ==> Made(muts, p))
  }

  lemma FirstAppend(muts: seq<Mutation>, m: Mutation, p: Path)
    ensures First(muts + [m], p) ==
            if First(muts, p) < |muts| then First(muts, p)
            else if m.target == p then |muts| else |muts| + 1
  {
    assert (muts + [m])[..|muts|] == muts;
    FirstPrefix(muts + [m], p);
  }

  lemma AppliedKept(fs0: Files, id0: nat, fs: Files, muts: seq<Mutation>, id: nat, m: Mutation, tree: Tree, next: Files, p: Path)
    requires Tracks(fs0, id0, fs, muts, id) && Happened(fs, m, tree, id, next)
    requires p in fs0 && !p.Staging?
    ensures Kept(fs0, next, muts + [m], p)
  {
    assert Kept(fs0, fs, muts, p);
    FirstAppend(muts, m, p);
  }

  lemma AppliedMade(fs0: Files, id0: nat, fs: Files, muts: seq<Mutation>, id: nat, m: Mutation, tree: Tree, next: Files, p: Path)
    requires Tracks(fs0, id0, fs, muts, id) && Happened(fs, m, tree, id, next)
    requires p in next && p !in fs0 && !p.Staging?
    ensures Made(muts + [m], p)
  {
    FirstAppend(muts, m, p);
    if p == m.target {
      AppliedFirst(fs0, id0, fs, muts, id, m, tree, next, p);
    } else if p in fs {
      assert Made(muts, p);
      if exists j :: 0 <= j < |muts| && muts[j].backup == Some(p) {
        var j :| 0 <= j < |muts| && muts[j].backup == Some(p);
        assert (muts + [m])[j].backup == Some(p);
      }
    } else {
      assert m.backup == Some(p);
      assert (muts + [m])[|muts|].backup == Some(p);
    }
  }

  lemma AppliedFirst(fs0: Files, id0: nat, fs: Files, muts: seq<Mutation>, id: nat, m: Mutation, tree: Tree, next: Files, p: Path)
    requires Tracks(fs0, id0, fs, muts, id) && Happened(fs, m, tree, id, next)
    requires p == m.target || exists k :: 0 <= k < |muts| && muts[k].target == p
    ensures FirstKind(fs0, next, muts + [m], p)
  {
    FirstAppend(muts, m, p);
    if First(muts, p) < |muts| {
      assert muts[First(muts, p)].target == p && Shaped(muts[First(muts, p)]);
      assert FirstKind(fs0, fs, muts, p);
      assert p == m.target || At(next, p) == At(fs, p);
      assert (muts + [m])[First(muts, p)] == muts[First(muts, p)];
    } else if p in fs0 {
      assert Kept(fs0, fs, muts, p);
    } else {
      assert p in fs ==> Made(muts, p);
    }
  }

  lemma AppliedBackups(fs0: Files, id0: nat, fs: Files, muts: seq<Mutation>, id: nat, m: Mutation, tree: Tree, next: Files)
    requires Tracks(fs0, id0, fs, muts, id) && Happened(fs, m, tree, id, next)
    ensures WellFormed(muts + [m]) && BackupIDs(muts + [m], id0, id + 1) && BackupsThere(next, muts + [m])
  {
    var all := muts + [m];
    forall k | 0 <= k < |all| && all[k].backup.Some?
      ensures all[k].backup.value in next
    {
      if k < |muts| {
        assert all[k] == muts[k];
        assert At(next, muts[k].backup.value) == At(fs, muts[k].backup.value);
      } else {
        assert At(next, m.backup.value) == At(fs, m.target);
      }
    }
  }

  lemma AppliedTracks(fs0: Files, id0: nat, fs: Files, muts: seq<Mutation>, id: nat, m: Mutation, tree: Tree, next: Files)
    requires Tracks(fs0, id0, fs, muts, id) && Happened(fs, m, tree, id, next) && FreshFrom(next, id + 1)
    ensures Tracks(fs0, id0, next, muts + [m], id + 1)
  {
    AppliedBackups(fs0, id0, fs, muts, id, m, tree, next);
    forall p | p in fs0 && !p.Staging?
      ensures Kept(fs0, next, muts + [m], p)
    {
      AppliedKept(fs0, id0, fs, muts, id, m, tree, next, p);
    }
    forall p | p in next && p !in fs0 && !p.Staging?
      ensures Made(muts + [m], p)
    {
      AppliedMade(fs0, id0, fs, muts, id, m, tree, next, p);
    }
    forall k | 0 <= k < |muts + [m]|
      ensures FirstKind(fs0, next, muts + [m], (muts + [m])[k].target)
    {
      if k < |muts| {
        assert (muts + [m])[k] == muts[k];
      }
      AppliedFirst(fs0, id0, fs, muts, id, m, tree, next, (muts + [m])[k].target);
    }
  }

  lemma UnmovedTracks(fs0: Files, id0: nat, fs: Files, muts: seq<Mutation>, id: nat, next: Files, id2: nat)
    requires Tracks(fs0, id0, fs, muts, id) && Unmoved(fs, next) && FreshFrom(next, id2) && id <= id2
    ensures Tracks(fs0, id0, next, muts, id2)
  {
    forall p | p in fs0 && !p.Staging?
      ensures Kept(fs0, next, muts, p)
    {
      assert Kept(fs0, fs, muts, p);
    }
    forall p | p in next && p !in fs0 && !p.Staging?
      ensures Made(muts, p)
    {
      assert At(next, p) == At(fs, p);
    }
    forall k | 0 <= k < |muts|
      ensures FirstKind(fs0, next, muts, muts[k].target)
    {
      assert FirstKind(fs0, fs, muts, muts[k].target);
      assert At(next, muts[k].target) == At(fs, muts[k].target);
    }
    forall k | 0 <= k < |muts| && muts[k].backup.Some?
      ensures muts[k].backup.value in next
    {
      assert At(next, muts[k].backup.value) == At(fs, muts[k].backup.value);
    }
  }

  /** How a batch that started at id0 may end. */
  ghost predicate Ends(fs0: Files, id0: nat, e: BatchEnd, faults: nat -> Fault) {
    match e.stop
    case None => NoNewStaging(fs0, e.fs) && exists id: nat :: Tracks(fs0, id0, e.fs, e.muts, id)
    case Some(stop) =>
      && Tracks(fs0, id0, stop.before, e.muts, stop.id) && NoNewStaging(fs0, stop.before)
      && ApplyOne(stop.before, stop.s, stop.id, faults(stop.id)) == (e.fs, Failed)
  }

  lemma {:induction false} BatchTracks(fs0: Files, id0: nat, fs: Files, sels: seq<Selection>, id: nat, faults: nat -> Fault, muts: seq<Mutation>)
    requires Tracks(fs0, id0, fs, muts, id) && NoNewStaging(fs0, fs)
    ensures Ends(fs0, id0, RunBatch(fs, sels, id, faults, muts), faults)
    decreases |sels|
  {
    if sels != [] {
      ApplyOneEffect(fs, sels[0], id, faults(id));
      var r := ApplyOne(fs, sels[0], id, faults(id));
      match r.1
      case Applied(m) =>
        AppliedTracks(fs0, id0, fs, muts, id, m, sels[0].tree, r.0);
        StagingStays(fs0, id0, fs, id, r.0);
        BatchTracks(fs0, id0, r.0, sels[1..], id + 1, faults, muts + [m]);
      case Skipped =>
        UnmovedTracks(fs0, id0, fs, muts, id, r.0, id + 1);
        BatchTracks(fs0, id0, r.0, sels[1..], id + 1, faults, muts);
      case Failed =>
    }
  }

  lemma StagingStays(fs0: Files, id0: nat, fs: Files, id: nat, next: Files)
    requires FreshFrom(fs0, id0) && id0 <= id && NoNewStaging(fs0, fs) && StagingUnder(fs, next, id)
    requires forall x: Path :: x.Staging? && x.id == id ==> x !in next
    ensures NoNewStaging(fs0, next)
  {
  }

  // --- committing and aborting ----------------------------------------------------------

  /** Removing the backups of a committed batch. */
  function Cleanup(fs: Files, muts: seq<Mutation>, from: nat, answers: nat -> (Attempt, Attempt)): Files
    requires from <= |muts|
    decreases |muts| - from
  {
    if from == |muts| then fs
    else
      var next := if muts[from].backup.Some?
                  then Remove(fs, muts[from].backup.value, answers(from).0, answers(from).1).0 else fs;
      Cleanup(next, muts, from + 1, answers)
  }

  datatype Outcome = Committed | Aborted(restoreFailed: bool)

  lemma BatchShaped(fs: Files, sels: seq<Selection>, id: nat, faults: nat -> Fault)
    requires FreshFrom(fs, id)
    ensures Ends(fs, id, RunBatch(fs, sels, id, faults, []), faults)
    ensures WellFormed(RunBatch(fs, sels, id, faults, []).muts)
  {
    assert Tracks(fs, id, fs, [], id);
    BatchTracks(fs, id, fs, sels, id, faults, []);
  }

  /** The whole import: on a failure, or when the state cannot be saved, roll back; else
      drop the backups. */
  function Import(fs: Files, sels: seq<Selection>, id: nat, faults: nat -> Fault, saveFails: bool,
                  undo: nat -> UndoFault, answers: nat -> (Attempt, Attempt)): (Files, Outcome)
    requires FreshFrom(fs, id)
  {
    BatchShaped(fs, sels, id, faults);
    var e := RunBatch(fs, sels, id, faults, []);
    if e.stop.Some? || (saveFails && e.muts != []) then
      var r := Rollback(e.fs, e.muts, undo);
      (r.0, Aborted(r.1))
    else (Cleanup(e.fs, e.muts, 0, answers), Committed)
  }

  /** The batch stopped at a first replacement whose collection was moved aside and could
      not be moved back. */
  ghost predicate LeftAside(e: BatchEnd, faults: nat -> Fault) {
    e.stop.Some? && PutBackFails(e.stop.value.before, e.stop.value.s, faults(e.stop.value.id))
    && First(e.muts, Target(e.stop.value.s.name)) == |e.muts|
  }

  /** Where a collection of the workspace is when the batch ends, before any rollback. */
  lemma EndKept(fs0: Files, id0: nat, e: BatchEnd, faults: nat -> Fault, p: Path)
    requires Ends(fs0, id0, e, faults) && p in fs0 && p.Target?
    ensures if LeftAside(e, faults) && p == Target(e.stop.value.s.name)
            then p !in e.fs && At(e.fs, Backup(p.name, e.stop.value.id)) == At(fs0, p) && First(e.muts, p) == |e.muts|
            else Kept(fs0, e.fs, e.muts, p)
    ensures LeftAside(e, faults) ==> BackupIDs(e.muts, id0, e.stop.value.id)
  {
    if e.stop.None? {
      var id: nat :| Tracks(fs0, id0, e.fs, e.muts, id);
      assert Kept(fs0, e.fs, e.muts, p);
    } else {
      var stop := e.stop.value;
      ApplyOneEffect(stop.before, stop.s, stop.id, faults(stop.id));
      assert Kept(fs0, stop.before, e.muts, p);
    }
  }

  /** Nothing is lost by an aborted import: for every answer of the system, what each
      collection held before is in place or in a backup directory. */
  lemma NothingIsLost(fs: Files, sels: seq<Selection>, id: nat, faults: nat -> Fault, saveFails: bool,
                      undo: nat -> UndoFault, answers: nat -> (Attempt, Attempt), p: Path)
    requires FreshFrom(fs, id) && p in fs && p.Target?
    requires Import(fs, sels, id, faults, saveFails, undo, answers).1.Aborted?
    ensures var after := Import(fs, sels, id, faults, saveFails, undo, answers).0;
            At(after, p) == At(fs, p) || exists b: Path :: b.Backup? && At(after, b) == At(fs, p)
  {
    BatchShaped(fs, sels, id, faults);
    var e := RunBatch(fs, sels, id, faults, []);
    EndKept(fs, id, e, faults, p);
    var i := First(e.muts, p);
    if LeftAside(e, faults) && p == Target(e.stop.value.s.name) {
      RollbackFrame(e.fs, e.muts, undo, Backup(p.name, e.stop.value.id));
    } else if i == |e.muts| {
      RollbackFrame(e.fs, e.muts, undo, p);
    } else {
      ReplacedIsBackOrKept(e.fs, e.muts, undo, p, fs[p]);
    }
  }

  /** An aborted import that reports no restore failure has put a collection back exactly
      when it is not one that was moved aside for a first replacement and could not be
      moved back: that refusal is dropped by the source. */
  lemma NilMeansBack(fs: Files, sels: seq<Selection>, id: nat, faults: nat -> Fault, saveFails: bool,
                     undo: nat -> UndoFault, answers: nat -> (Attempt, Attempt), p: Path)
    requires FreshFrom(fs, id) && p in fs && p.Target?
    requires Import(fs, sels, id, faults, saveFails, undo, answers).1 == Aborted(false)
    ensures var e := RunBatch(fs, sels, id, faults, []);
            At(Import(fs, sels, id, faults, saveFails, undo, answers).0, p) == At(fs, p)
            <==> !(LeftAside(e, faults) && p == Target(e.stop.value.s.name))
  {
    BatchShaped(fs, sels, id, faults);
    var e := RunBatch(fs, sels, id, faults, []);
    EndKept(fs, id, e, faults, p);
    var i := First(e.muts, p);
    if i == |e.muts| {
      RollbackFrame(e.fs, e.muts, undo, p);
    } else {
      ReplacedIsBackOrKept(e.fs, e.muts, undo, p, fs[p]);
    }
  }

  /** The dropped refusal, concretely: the import reports that everything was restored
      while the collection is only in its backup directory. */
  lemma DroppedPutBack()
    ensures var fs: Files := map[Target("api") := 1];
            var sels := [Selection("api", Replace, 2)];
            var fault := Fault(false, false, false, false, false, true, true, Removed, Removed);
            var r := Import(fs, sels, 0, _ => fault, false, _ => UndoFault(Removed, Removed, false), _ => (Removed, Removed));
            r.1 == Aborted(false) && r.0 == map[Backup("api", 0) := 1]
  {
    var fs: Files := map[Target("api") := 1];
    var sels := [Selection("api", Replace, 2)];
    var fault := Fault(false, false, false, false, false, true, true, Removed, Removed);
    ApplyOneEffect(fs, sels[0], 0, fault);
    var one := ApplyOne(fs, sels[0], 0, fault);
    assert RunBatch(fs, sels, 0, _ => fault, []).fs == one.0;
    assert one.0 == map[Backup("api", 0) := 1] by {
      forall p: Path
        ensures p in one.0 <==> p == Backup("api", 0)
      {
        if p.Staging? {
          assert At(one.0, p) == None;
        } else {
          assert At(one.0, p) == if p == Backup("api", 0) then Some(1) else None;
        }
      }
    }
  }

  /** When no removal and no rename of the rollback is refused, and the failing collection
      was cleaned up, the filesystem is exactly what it was before the batch. */
  lemma AbortRestoresExactly(fs: Files, sels: seq<Selection>, id: nat, faults: nat -> Fault, saveFails: bool,
                             undo: nat -> UndoFault, answers: nat -> (Attempt, Attempt))
    requires FreshFrom(fs, id)
    requires Import(fs, sels, id, faults, saveFails, undo, answers).1.Aborted?
    requires forall i: nat :: NoFault(undo(i))
    requires forall i: nat :: (faults(i).first.Removed? || faults(i).second.Removed?) && !faults(i).putBackRefused
    ensures Import(fs, sels, id, faults, saveFails, undo, answers) == (fs, Aborted(false))
  {
    BatchShaped(fs, sels, id, faults);
    var e := RunBatch(fs, sels, id, faults, []);
    var r := Rollback(e.fs, e.muts, undo);
    forall p: Path
      ensures At(r.0, p) == At(fs, p)
    {
      EndMade(fs, id, e, faults, p);
      RestoredAt(fs, id, e, undo, p);
    }
    SameFiles(r.0, fs);
    EndMade(fs, id, e, faults, Target(""));
    NoFaultNoError(e.fs, e.muts, undo);
  }

  lemma SameFiles(a: Files, b: Files)
    requires forall p: Path :: At(a, p) == At(b, p)
    ensures a == b
  {
    forall p: Path
      ensures p in a <==> p in b
      ensures p in a ==> a[p] == b[p]
    {
      assert At(a, p) == At(b, p);
    }
  }

  /** What the end of an unhindered batch says about any path. */
  ghost predicate EndsAt(fs0: Files, id0: nat, e: BatchEnd, p: Path) {
    && WellFormed(e.muts) && BackupsThere(e.fs, e.muts)
    && (exists to: nat :: BackupIDs(e.muts, id0, to))
    && (p.Staging? ==> At(e.fs, p) == At(fs0, p))
    && (p in e.fs && p !in fs0 ==> Made(e.muts, p))
    && (p in fs0 && !p.Staging? ==> Kept(fs0, e.fs, e.muts, p))
    && (First(e.muts, p) < |e.muts| ==> (e.muts[First(e.muts, p)].backup.Some? <==> p in fs0))
  }

  lemma EndMade(fs0: Files, id0: nat, e: BatchEnd, faults: nat -> Fault, p: Path)
    requires Ends(fs0, id0, e, faults)
    requires forall i: nat :: (faults(i).first.Removed? || faults(i).second.Removed?) && !faults(i).putBackRefused
    ensures EndsAt(fs0, id0, e, p)
  {
    if e.stop.None? {
      var id: nat :| Tracks(fs0, id0, e.fs, e.muts, id);
      TracksAt(fs0, id0, e, id, p);
    } else {
      var stop := e.stop.value;
      ApplyOneEffect(stop.before, stop.s, stop.id, faults(stop.id));
      forall k | 0 <= k < |e.muts| && e.muts[k].backup.Some?
        ensures e.muts[k].backup.value in e.fs
      {
        assert At(e.fs, e.muts[k].backup.value) == At(stop.before, e.muts[k].backup.value);
      }
      StagingStays(fs0, id0, stop.before, stop.id, e.fs);
      UnmovedTracks(fs0, id0, stop.before, e.muts, stop.id, e.fs, stop.id + 1);
      TracksAt(fs0, id0, e, stop.id + 1, p);
    }
  }

  lemma TracksAt(fs0: Files, id0: nat, e: BatchEnd, id: nat, p: Path)
    requires Tracks(fs0, id0, e.fs, e.muts, id) && NoNewStaging(fs0, e.fs)
    ensures EndsAt(fs0, id0, e, p)
  {
    if First(e.muts, p) < |e.muts| {
      assert FirstKind(fs0, e.fs, e.muts, e.muts[First(e.muts, p)].target);
    }
    assert p in e.fs && p !in fs0 && p.Staging? ==> At(e.fs, p) == At(fs0, p);
  }

  lemma RestoredAt(fs0: Files, id0: nat, e: BatchEnd, undo: nat -> UndoFault, p: Path)
    requires FreshFrom(fs0, id0) && EndsAt(fs0, id0, e, p)
    requires forall i: nat :: NoFault(undo(i))
    ensures At(Rollback(e.fs, e.muts, undo).0, p) == At(fs0, p)
  {
    var i := First(e.muts, p);
    if j :| 0 <= j < |e.muts| && e.muts[j].backup == Some(p) {
      BackupsAreGone(e.fs, e.muts, undo, j);
      assert p !in fs0;
    } else if i == |e.muts| {
      RollbackFrame(e.fs, e.muts, undo, p);
    } else if p in fs0 {
      NoFaultNoError(e.fs, e.muts, undo);
      ReplacedIsBackOrKept(e.fs, e.muts, undo, p, fs0[p]);
    } else {
      CreatedIsGone(e.fs, e.muts, undo, p);
    }
  }

  // --- a committed batch ---------------------------------------------------------------

  lemma {:induction false} CleanupEffect(fs: Files, muts: seq<Mutation>, from: nat, answers: nat -> (Attempt, Attempt), p: Path)
    requires from <= |muts| && forall k :: 0 <= k < |muts| ==> Shaped(muts[k])
    ensures !p.Backup? ==> At(Cleanup(fs, muts, from, answers), p) == At(fs, p)
    ensures p in Cleanup(fs, muts, from, answers) ==> p in fs
    ensures (forall i: nat :: answers(i).0.Removed? || answers(i).1.Removed?) && (exists j :: from <= j < |muts| && muts[j].backup == Some(p)) ==>
              p !in Cleanup(fs, muts, from, answers)
    decreases |muts| - from
  {
    if from < |muts| {
      var next := if muts[from].backup.Some?
                  then Remove(fs, muts[from].backup.value, answers(from).0, answers(from).1).0 else fs;
      assert p in next ==> p in fs by {
        if muts[from].backup.Some? && p != muts[from].backup.value {
          assert At(next, p) == At(fs, p);
        }
      }
      CleanupEffect(next, muts, from + 1, answers, p);
    }
  }

  /** A committed import keeps every collection that was there (replaced or not), leaves
      the ones it did not touch alone, and leaves no staging directory behind; when the
      removals are not refused, no backup directory either. */
  lemma CommitLeavesNothingBehind(fs: Files, sels: seq<Selection>, id: nat, faults: nat -> Fault, saveFails: bool,
                                  undo: nat -> UndoFault, answers: nat -> (Attempt, Attempt), p: Path)
    requires FreshFrom(fs, id)
    requires Import(fs, sels, id, faults, saveFails, undo, answers).1.Committed?
    ensures var after := Import(fs, sels, id, faults, saveFails, undo, answers).0;
            var muts := RunBatch(fs, sels, id, faults, []).muts;
            && (p.Target? && p in fs ==> p in after)
            && (p.Target? && First(muts, p) == |muts| ==> At(after, p) == At(fs, p))
            && (p.Staging? ==> At(after, p) == At(fs, p))
            && ((forall i: nat :: answers(i).0.Removed? || answers(i).1.Removed?) && p.Backup? ==> (p in after ==> p in fs))
  {
    BatchShaped(fs, sels, id, faults);
    var e := RunBatch(fs, sels, id, faults, []);
    var to: nat :| Tracks(fs, id, e.fs, e.muts, to);
    TracksAt(fs, id, e, to, p);
    CleanupEffect(e.fs, e.muts, 0, answers, p);
    if First(e.muts, p) < |e.muts| {
      assert FirstKind(fs, e.fs, e.muts, e.muts[First(e.muts, p)].target);
    }
  }

  // --- when an import commits, and what it leaves ------------------------------------------

  /** Where a selection puts its collection, given what is there: its own place when that
      is free or to be replaced, the first free numbered name from 2 on when both are kept,
      nowhere when it is skipped. */
  ghost predicate Goes(shelf: Files, s: Selection, p: Path) {
    if Target(s.name) !in shelf || s.action.Replace? then p == Target(s.name)
    else s.action.KeepBoth? &&
         exists n: nat :: n >= 2 && p == Candidate(s.name, n) && p !in shelf &&
                          forall k: nat :: 2 <= k < n ==> Candidate(s.name, k) in shelf
  }

  ghost predicate Lands(shelf: Files, s: Selection) {
    Target(s.name) in shelf ==> !s.action.SkipIt?
  }

  /** The system lets the selection fail. */
  predicate Fails(shelf: Files, s: Selection, f: Fault) {
    var there := Target(s.name) in shelf;
    || f.lstatFails
    || (there && f.symlink)
    || (there && s.action.Replace? && f.backupRefused)
    || ((there ==> !s.action.SkipIt?) && (f.mkdirFails || f.writeFails || f.installRefused))
  }

  /** One selection, on targets alone: it fails exactly as the answers say, or else lands
      its tree where it goes and nowhere else. */
  lemma ApplyOneExactly(fs: Files, s: Selection, id: nat, f: Fault)
    requires FreshFrom(fs, id)
    ensures var r := ApplyOne(fs, s, id, f);
            && (r.1.Failed? <==> Fails(fs, s, f))
            && (!r.1.Failed? ==> (r.1.Applied? <==> Lands(fs, s)))
            && (r.1.Applied? ==> Goes(fs, s, r.1.m.target) && At(r.0, r.1.m.target) == Some(s.tree) &&
                                 forall p: Path :: p.Target? && p != r.1.m.target ==> At(r.0, p) == At(fs, p))
            && (r.1.Skipped? ==> r.0 == fs)
  {
    ApplyOneEffect(fs, s, id, f);
    var target := Target(s.name);
    if !f.lstatFails {
      if target !in fs {
        MaterializeEffect(fs, target, s.tree, id, f);
      } else if !f.symlink && s.action.Replace? {
        ReplaceFails(fs, target, s.tree, id, f);
      } else if !f.symlink && s.action.KeepBoth? {
        var n := FreeOrdinal(fs, s.name, 2, {});
        MaterializeEffect(fs, Candidate(s.name, n), s.tree, id, f);
        assert Goes(fs, s, Candidate(s.name, n));
      }
    }
  }

  lemma ReplaceFails(fs: Files, target: Path, tree: Tree, id: nat, f: Fault)
    requires target.Target? && target in fs && FreshFrom(fs, id)
    ensures ReplaceOne(fs, target, tree, id, f).1.Failed? <==>
            f.backupRefused || f.mkdirFails || f.writeFails || f.installRefused
    ensures ReplaceOne(fs, target, tree, id, f).1.Applied? ==> ReplaceOne(fs, target, tree, id, f).1.m.target == target
    ensures !ReplaceOne(fs, target, tree, id, f).1.Skipped?
  {
    var backup := Backup(target.name, id);
    assert backup !in fs && Staging(target.name, id) !in fs;
    var aside := Rename(fs, target, backup, f.backupRefused);
    if aside.1 {
      assert At(aside.0, target) == None;
      assert At(aside.0, Staging(target.name, id)) == At(fs, Staging(target.name, id));
      MaterializeEffect(aside.0, target, tree, id, f);
    }
  }

  /** The targets after one selection, put where it goes. */
  ghost predicate Shelves(before: Files, s: Selection, after: Files) {
    if Lands(before, s) then
      exists p: Path :: Goes(before, s, p) && p.Target? && At(after, p) == Some(s.tree) &&
                        forall q: Path :: q.Target? && q != p ==> At(after, q) == At(before, q)
    else forall q: Path :: q.Target? ==> At(after, q) == At(before, q)
  }

  /** The targets as they would be after each number of selections, had nothing failed. */
  ghost predicate Plan(shelves: seq<Files>, sels: seq<Selection>) {
    |shelves| == |sels| + 1 && forall i :: 0 <= i < |sels| ==> Shelves(shelves[i], sels[i], shelves[i + 1])
  }

  ghost predicate SomeFails(shelves: seq<Files>, sels: seq<Selection>, id: nat, faults: nat -> Fault)
    requires |shelves| == |sels| + 1
  {
    exists i :: 0 <= i < |sels| && Fails(shelves[i], sels[i], faults(id + i))
  }

  ghost predicate SomeLands(shelves: seq<Files>, sels: seq<Selection>)
    requires |shelves| == |sels| + 1
  {
    exists i :: 0 <= i < |sels| && Lands(shelves[i], sels[i])
  }

  ghost predicate SameTargets(a: Files, b: Files) {
    forall p: Path :: p.Target? ==> At(a, p) == At(b, p)
  }

  lemma SameThere(a: Files, b: Files, p: Path)
    requires SameTargets(a, b) && p.Target?
    ensures p in a <==> p in b
  {
    assert At(a, p) == At(b, p);
  }

  lemma SamePlace(a: Files, b: Files, s: Selection, f: Fault, p: Path, q: Path)
    requires SameTargets(a, b)
    ensures Lands(a, s) <==> Lands(b, s)
    ensures Fails(a, s, f) <==> Fails(b, s, f)
    ensures Goes(a, s, p) && Goes(b, s, q) ==> p == q
  {
    SameThere(a, b, Target(s.name));
    if Goes(a, s, p) && Goes(b, s, q) && Target(s.name) in a && s.action.KeepBoth? {
      var m: nat :| m >= 2 && p == Candidate(s.name, m) && p !in a && forall k: nat :: 2 <= k < m ==> Candidate(s.name, k) in a;
      var n: nat :| n >= 2 && q == Candidate(s.name, n) && q !in b && forall k: nat :: 2 <= k < n ==> Candidate(s.name, k) in b;
      SameThere(a, b, Candidate(s.name, m));
      SameThere(a, b, Candidate(s.name, n));
      assert m == n;
    }
  }

  /** One applied selection does to the targets what the plan does. */
  lemma StepFollowsPlan(fs: Files, shelf: Files, next: Files, s: Selection, id: nat, f: Fault)
    requires FreshFrom(fs, id) && SameTargets(fs, shelf) && Shelves(shelf, s, next) && !Fails(shelf, s, f)
    ensures var r := ApplyOne(fs, s, id, f);
            !r.1.Failed? && (r.1.Applied? <==> Lands(shelf, s)) && SameTargets(r.0, next)
  {
    ApplyOneExactly(fs, s, id, f);
    var r := ApplyOne(fs, s, id, f);
    hide ApplyOne;
    hide Fails;
    if r.1.Applied? {
      SamePlace(fs, shelf, s, f, r.1.m.target, r.1.m.target);
      var p: Path :| Goes(shelf, s, p) && p.Target? && At(next, p) == Some(s.tree) &&
                     forall q: Path :: q.Target? && q != p ==> At(next, q) == At(shelf, q);
      SamePlace(fs, shelf, s, f, r.1.m.target, p);
      hide Goes;
      assert r.1.m.target == p;
    } else {
      SamePlace(fs, shelf, s, f, Target(s.name), Target(s.name));
      hide Goes;
    }
  }

  lemma {:induction false} BatchFollowsPlan(fs: Files, shelves: seq<Files>, sels: seq<Selection>, id: nat, faults: nat -> Fault,
                                            muts: seq<Mutation>)
    requires FreshFrom(fs, id) && Plan(shelves, sels) && SameTargets(fs, shelves[0])
    ensures var e := RunBatch(fs, sels, id, faults, muts);
            && (e.stop.Some? <==> SomeFails(shelves, sels, id, faults))
            && (e.stop.None? ==> SameTargets(e.fs, shelves[|sels|]))
            && (e.stop.None? ==> (e.muts != [] <==> muts != [] || SomeLands(shelves, sels)))
    decreases |sels|
  {
    if sels != [] {
      var s, f := sels[0], faults(id);
      var r := ApplyOne(fs, s, id, f);
      SamePlace(fs, shelves[0], s, f, Target(s.name), Target(s.name));
      ApplyOneExactly(fs, s, id, f);
      ApplyOneEffect(fs, s, id, f);
      hide ApplyOne;
      hide Fails;
      hide Lands;
      hide Goes;
      if Fails(shelves[0], s, f) {
        assert Fails(shelves[0], sels[0], faults(id + 0));
      } else {
        assert Shelves(shelves[0], sels[0], shelves[1]);
        StepFollowsPlan(fs, shelves[0], shelves[1], s, id, f);
        PlanTail(shelves, sels, id, faults);
        hide SomeFails;
        hide SomeLands;
        hide Shelves;
        BatchFollowsPlan(r.0, shelves[1..], sels[1..], id + 1, faults, muts + if r.1.Applied? then [r.1.m] else []);
        assert muts + [] == muts;
      }
    }
  }

  lemma PlanTail(shelves: seq<Files>, sels: seq<Selection>, id: nat, faults: nat -> Fault)
    requires sels != [] && Plan(shelves, sels)
    ensures Plan(shelves[1..], sels[1..])
    ensures SomeFails(shelves, sels, id, faults) <==>
            Fails(shelves[0], sels[0], faults(id)) || SomeFails(shelves[1..], sels[1..], id + 1, faults)
    ensures SomeLands(shelves, sels) <==> Lands(shelves[0], sels[0]) || SomeLands(shelves[1..], sels[1..])
  {
    hide Fails;
    hide Lands;
    hide Shelves;
    var tail, rest := shelves[1..], sels[1..];
    forall i | 0 <= i < |rest|
      ensures tail[i] == shelves[i + 1] && rest[i] == sels[i + 1]
    {
    }
    if SomeFails(shelves, sels, id, faults) {
      var i :| 0 <= i < |sels| && Fails(shelves[i], sels[i], faults(id + i));
      if i > 0 {
        assert Fails(tail[i - 1], rest[i - 1], faults(id + 1 + (i - 1)));
      }
    }
    if SomeFails(tail, rest, id + 1, faults) {
      var i :| 0 <= i < |rest| && Fails(tail[i], rest[i], faults(id + 1 + i));
      assert Fails(shelves[i + 1], sels[i + 1], faults(id + (i + 1)));
    }
    if SomeLands(shelves, sels) {
      var i :| 0 <= i < |sels| && Lands(shelves[i], sels[i]);
      if i > 0 {
        assert Lands(tail[i - 1], rest[i - 1]);
      }
    }
    if SomeLands(tail, rest) {
      var i :| 0 <= i < |rest| && Lands(tail[i], rest[i]);
      assert Lands(shelves[i + 1], sels[i + 1]);
    }
  }

  /** An import is aborted exactly when the answers let some selection fail, or let the
      save fail after something was applied; a committed one leaves every target as the
      plan says. */
  lemma ImportExactly(fs: Files, shelves: seq<Files>, sels: seq<Selection>, id: nat, faults: nat -> Fault, saveFails: bool,
                      undo: nat -> UndoFault, answers: nat -> (Attempt, Attempt))
    requires FreshFrom(fs, id) && Plan(shelves, sels) && shelves[0] == fs
    ensures var r := Import(fs, sels, id, faults, saveFails, undo, answers);
            && (r.1.Aborted? <==> SomeFails(shelves, sels, id, faults) || (saveFails && SomeLands(shelves, sels)))
            && (r.1.Committed? ==> SameTargets(r.0, shelves[|sels|]))
  {
    BatchFollowsPlan(fs, shelves, sels, id, faults, []);
    BatchShaped(fs, sels, id, faults);
    var e := RunBatch(fs, sels, id, faults, []);
    hide RunBatch;
    hide SomeFails;
    hide SomeLands;
    hide Shelves;
    hide Rollback;
    forall p: Path | p.Target?
      ensures At(Cleanup(e.fs, e.muts, 0, answers), p) == At(e.fs, p)
    {
      CleanupEffect(e.fs, e.muts, 0, answers, p);
    }
    hide Cleanup;
  }

  /** There is such a plan for every list of selections. */
  lemma {:induction false} PlanExists(fs: Files, sels: seq<Selection>) returns (shelves: seq<Files>)
    ensures Plan(shelves, sels) && shelves[0] == fs
    decreases |sels|
  {
    if sels == [] {
      shelves := [fs];
    } else {
      var next := fs;
      if Lands(fs, sels[0]) {
        var p := Place(fs, sels[0]);
        next := Put(fs, p, Some(sels[0].tree));
      }
      assert Shelves(fs, sels[0], next);
      var rest := PlanExists(next, sels[1..]);
      shelves := [fs] + rest;
      forall i | 0 <= i < |sels|
        ensures Shelves(shelves[i], sels[i], shelves[i + 1])
      {
        if i > 0 {
          assert sels[1..][i - 1] == sels[i] && rest[i - 1] == shelves[i];
        }
      }
    }
  }

  lemma Place(fs: Files, s: Selection) returns (p: Path)
    requires Lands(fs, s)
    ensures Goes(fs, s, p) && p.Target?
  {
    if Target(s.name) !in fs || s.action.Replace? {
      p := Target(s.name);
    } else {
      p := Candidate(s.name, FreeOrdinal(fs, s.name, 2, {}));
    }
  }

  /** Nothing in the way: every answer is a good one, and nothing met is a symbolic link. */
  predicate Smooth(f: Fault) {
    !f.lstatFails && !f.symlink && !f.backupRefused && !f.mkdirFails && !f.writeFails && !f.installRefused
  }

  /** So an import commits when the system refuses nothing. */
  lemma SmoothImportCommits(fs: Files, sels: seq<Selection>, id: nat, faults: nat -> Fault,
                            undo: nat -> UndoFault, answers: nat -> (Attempt, Attempt))
    requires FreshFrom(fs, id) && forall i: nat :: Smooth(faults(i))
    ensures Import(fs, sels, id, faults, false, undo, answers).1.Committed?
  {
    var shelves := PlanExists(fs, sels);
    ImportExactly(fs, shelves, sels, id, faults, false, undo, answers);
    hide Import;
    forall i | 0 <= i < |sels|
      ensures !Fails(shelves[i], sels[i], faults(id + i))
    {
      SmoothNeverFails(shelves[i], sels[i], faults(id + i));
    }
  }

  lemma SmoothNeverFails(fs: Files, s: Selection, f: Fault)
    requires Smooth(f)
    ensures !Fails(fs, s, f)
  {
  }

  /** And a target the selections are put on last holds the last of their trees. */
  lemma LastTreeStays(shelves: seq<Files>, sels: seq<Selection>, i: nat, p: Path)
    requires Plan(shelves, sels) && i < |sels| && p.Target? && Lands(shelves[i], sels[i]) && Goes(shelves[i], sels[i], p)
    requires forall j :: i < j < |sels| && Lands(shelves[j], sels[j]) ==> !Goes(shelves[j], sels[j], p)
    ensures At(shelves[|sels|], p) == Some(sels[i].tree)
  {
    assert Shelves(shelves[i], sels[i], shelves[i + 1]);
    var q: Path :| Goes(shelves[i], sels[i], q) && q.Target? && At(shelves[i + 1], q) == Some(sels[i].tree) &&
                   forall x: Path :: x.Target? && x != q ==> At(shelves[i + 1], x) == At(shelves[i], x);
    SamePlace(shelves[i], shelves[i], sels[i], CALM, p, q);
    Untouched(shelves, sels, i + 1, p);
  }

  const CALM := Fault(false, false, false, false, false, false, false, Removed, Removed)

  lemma {:induction false} Untouched(shelves: seq<Files>, sels: seq<Selection>, from: nat, p: Path)
    requires Plan(shelves, sels) && from <= |sels| && p.Target?
    requires forall j :: from <= j < |sels| && Lands(shelves[j], sels[j]) ==> !Goes(shelves[j], sels[j], p)
    ensures At(shelves[|sels|], p) == At(shelves[from], p)
    decreases |sels| - from
  {
    if from < |sels| {
      assert Shelves(shelves[from], sels[from], shelves[from + 1]);
      assert At(shelves[from + 1], p) == At(shelves[from], p);
      Untouched(shelves, sels, from + 1, p);
    }
  }

  // --- as the source runs it ---------------------------------------------------------------

  /** The importer: the filesystem it works on and the mutation list it grows. */
  class Importer {
    var fs: Files
    var mutations: seq<Mutation>

    constructor (fs: Files)
      ensures this.fs == fs && mutations == []
    {
      this.fs, mutations := fs, [];
    }

    method RemovePath(p: Path, first: Attempt, second: Attempt) returns (ok: bool)
      modifies this
      ensures (fs, ok) == Remove(old(fs), p, first, second) && mutations == old(mutations)
    {
      for attempt := 0 to 2
        invariant attempt == 0 ==> fs == old(fs)
        invariant attempt == 1 ==> first.Refused? && p in old(fs) && fs == Put(old(fs), p, first.left)
        invariant attempt == 2 ==> (fs, false) == Remove(old(fs), p, first, second)
        invariant mutations == old(mutations)
      {
        var answer := if attempt == 0 then first else second;
        if p !in fs || answer.Removed? {
          fs := Put(fs, p, None);
          PutTwice(old(fs), p, if attempt == 0 then None else first.left, None);
          return true;
        }
        fs := Put(fs, p, answer.left);
        PutTwice(old(fs), p, if attempt == 0 then None else first.left, answer.left);
      }
      return false;
    }

    method RenamePath(src: Path, dst: Path, refused: bool) returns (ok: bool)
      requires src != dst
      modifies this
      ensures (fs, ok) == Rename(old(fs), src, dst, refused) && mutations == old(mutations)
    {
      if refused || src !in fs || dst in fs {
        return false;
      }
      fs := Put(Put(fs, dst, Some(fs[src])), src, None);
      return true;
    }

    method MaterializeCollection(target: Path, tree: Tree, id: nat, f: Fault) returns (ok: bool)
      requires target.Target?
      modifies this
      ensures (fs, ok) == Materialize(old(fs), target, tree, id, f) && mutations == old(mutations)
    {
      if f.mkdirFails {
        return false;
      }
      var staging := Staging(target.name, id);
      fs := Put(fs, staging, Some(tree));
      ok := false;
      if !f.writeFails {
        ok := RenamePath(staging, target, f.installRefused);
      }
      var removed := RemovePath(staging, f.first, f.second);
    }

    method ApplyCollection(s: Selection, id: nat, f: Fault) returns (r: Result)
      modifies this
      ensures (fs, r) == ApplyOne(old(fs), s, id, f)
      ensures mutations == old(mutations) + (if r.Applied? then [r.m] else [])
    {
      var target := Target(s.name);
      if f.lstatFails {
        return Failed;
      }
      if target in fs {
        if f.symlink {
          return Failed;
        }
        match s.action {
          case SkipIt =>
            return Skipped;
          case Replace =>
            var backup := Backup(target.name, id);
            var aside := RenamePath(target, backup, f.backupRefused);
            if !aside {
              return Failed;
            }
            var installed := MaterializeCollection(target, s.tree, id, f);
            if !installed {
              var putBack := RenamePath(backup, target, f.putBackRefused);
              return Failed;
            }
            mutations := mutations + [Mutation(target, Some(backup))];
            return Applied(Mutation(target, Some(backup)));
          case KeepBoth =>
            var ordinal := 2;
            while Candidate(s.name, ordinal) in fs
              invariant 2 <= ordinal <= FreeOrdinal(fs, s.name, 2, {})
              decreases FreeOrdinal(fs, s.name, 2, {}) - ordinal
            {
              ordinal := ordinal + 1;
            }
            target := Candidate(s.name, ordinal);
        }
      }
      var installed := MaterializeCollection(target, s.tree, id, f);
      if !installed {
        return Failed;
      }
      mutations := mutations + [Mutation(target, None)];
      return Applied(Mutation(target, None));
    }

    method RollbackMutations(undo: nat -> UndoFault) returns (restoreFailed: bool)
      requires forall k :: 0 <= k < |mutations| ==> Shaped(mutations[k])
      modifies this
      ensures (fs, restoreFailed) == Rollback(old(fs), old(mutations), undo) && mutations == old(mutations)
    {
      restoreFailed := false;
      ghost var start, muts := fs, mutations;
      var index := |mutations|;
      assert muts[..index] == muts;
      while index > 0
        invariant index <= |muts| && mutations == muts
        invariant var rest := Rollback(fs, muts[..index], undo);
                  (rest.0, restoreFailed || rest.1) == Rollback(start, muts, undo)
      {
        index := index - 1;
        var mutation := mutations[index];
        assert muts[..index + 1][..index] == muts[..index];
        var removed := RemovePath(mutation.target, undo(index).first, undo(index).second);
        if !removed {
          restoreFailed := restoreFailed || mutation.backup.Some?;
          continue;
        }
        if mutation.backup.None? {
          continue;
        }
        var renamed := RenamePath(mutation.backup.value, mutation.target, undo(index).renameRefused);
        restoreFailed := restoreFailed || !renamed;
      }
    }

    /** The selections one by one, until one fails. */
    method ApplySelections(sels: seq<Selection>, id: nat, faults: nat -> Fault) returns (failed: bool)
      modifies this
      ensures var e := RunBatch(old(fs), sels, id, faults, old(mutations));
              fs == e.fs && mutations == e.muts && failed == e.stop.Some?
    {
      hide ApplyOne;
      hide RunBatch;
      ghost var e := RunBatch(fs, sels, id, faults, mutations);
      var i := 0;
      assert sels[0..] == sels;
      while i < |sels|
        invariant i <= |sels|
        invariant RunBatch(fs, sels[i..], id + i, faults, mutations) == e
      {
        ghost var before, muts := fs, mutations;
        var r := ApplyCollection(sels[i], id + i, faults(id + i));
        BatchUnrolls(before, sels, i, id, faults, muts, (fs, r));
        if r.Failed? {
          return true;
        }
        i := i + 1;
      }
      BatchDone(fs, sels, id + i, faults, mutations);
      return false;
    }

    method CleanupBackups(answers: nat -> (Attempt, Attempt))
      modifies this
      ensures fs == Cleanup(old(fs), mutations, 0, answers) && mutations == old(mutations)
    {
      ghost var start := fs;
      var k := 0;
      while k < |mutations|
        invariant k <= |mutations| && mutations == old(mutations)
        invariant Cleanup(fs, mutations, k, answers) == Cleanup(start, mutations, 0, answers)
      {
        if mutations[k].backup.Some? {
          var removed := RemovePath(mutations[k].backup.value, answers(k).0, answers(k).1);
        }
        k := k + 1;
      }
    }

    method ApplyImport(sels: seq<Selection>, id: nat, faults: nat -> Fault, saveFails: bool,
                       undo: nat -> UndoFault, answers: nat -> (Attempt, Attempt)) returns (outcome: Outcome)
      requires FreshFrom(fs, id) && mutations == []
      modifies this
      ensures (fs, outcome) == Import(old(fs), sels, id, faults, saveFails, undo, answers)
    {
      BatchShaped(fs, sels, id, faults);
      var failed := ApplySelections(sels, id, faults);
      if failed || (saveFails && mutations != []) {
        var restoreFailed := RollbackMutations(undo);
        return Aborted(restoreFailed);
      }
      CleanupBackups(answers);
      return Committed;
    }
  }
}
