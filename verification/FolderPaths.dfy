// The folders of a collection: creating, renaming and deleting them, by rewriting the
// path prefixes of folders and requests.

module FolderPaths {
  import opened FolderOrder
  import opened Ordering
  import opened Paths
  import opened Text

  /** A folder has a physical path and a display path, as stored; the display path may be
      unset. */
  datatype Folder = Folder(path: Path, displayPath: Path, name: string, seqNo: int)

  /** A request lives in a folder by display path; its file is relative to the collection. */
  datatype Request = Request(folder: Path, file: Path)

  datatype Tree = Tree(folders: seq<Folder>, requests: seq<Request>)

  datatype Error = NameRequired | NameTooLong | NotFound | Reserved | Duplicate | Disk | Unnumbered | Unsaved

  /** What an operation learns from outside: whether the checks and changes on disk that
      come first succeed, whether a deleted directory could be removed and the siblings left
      behind renumbered, and whether marking the state dirty reports no failure. */
  datatype Answers = Answers(disk: bool, removed: bool, renumbered: bool, saved: bool)

  const ALL_WELL := Answers(true, true, true, true)

  datatype Reply = Reply(tree: Tree, error: Option<Error>)

  // --- paths ---------------------------------------------------------------------------------

  function Base(p: Path): string {
    if p == [] then [] else p[|p| - 1]
  }

  predicate HasPrefix(p: Path, prefix: Path) {
    Normalize(p) != [] && Normalize(prefix) != [] && Normalize(prefix) <= Normalize(p)
  }

  /** A prefix replaced in a path that is a key already. */
  function Replace(p: Path, oldTop: Path, newTop: Path): Path {
    if oldTop != [] && oldTop <= p then newTop + p[|oldTop|..] else p
  }

  function ReplacePrefix(value: Path, oldPrefix: Path, newPrefix: Path): Path {
    var v, o, n := Normalize(value), Normalize(oldPrefix), Normalize(newPrefix);
    if o == [] then v
    else if v == o then n
    else if o <= v then JoinPath(n, v[|o|..])
    else v
  }

  /** The display path as stored: the field, else the name, else the physical path. */
  function Chosen(f: Folder): Path {
    if !Blank(f.displayPath) then f.displayPath
    else if Trim(f.name) != [] then Pieces(f.name)
    else f.path
  }

  function Display(f: Folder): Path {
    Normalize(Chosen(f))
  }

  // --- the three operations ------------------------------------------------------------------

  predicate Found(f: Folder, key: Path) {
    Normalize(f.path) == key || Normalize(f.displayPath) == key
  }

  function First<T>(xs: seq<T>, found: T -> bool): (i: nat)
    ensures i <= |xs|
    ensures i < |xs| ==> found(xs[i])
    ensures forall j :: 0 <= j < i ==> !found(xs[j])
  {
    if xs == [] || found(xs[0]) then 0 else 1 + First(xs[1..], found)
  }

  function FindFolder(folders: seq<Folder>, key: Path): (i: nat)
    ensures i <= |folders|
    ensures i < |folders| ==> Found(folders[i], key)
    ensures forall j :: 0 <= j < i ==> !Found(folders[j], key)
  {
    First(folders, f => Found(f, key))
  }

  /** The search of a key ends at the folder with that physical path. */
  predicate Hits(t: Tree, p: Path) {
    var i := FindFolder(t.folders, p);
    i < |t.folders| && t.folders[i].path == p
  }

  /** The duplicate check: only directory names under the same physical parent count. */
  predicate ChildNamed(f: Folder, parent: Path, directory: string) {
    ParentPath(f.path) == parent && Trim(Base(Normalize(f.path))) == Trim(directory)
  }

  predicate HasChild(folders: seq<Folder>, parent: Path, directory: string) {
    exists f <- folders :: ChildNamed(f, Normalize(parent), directory)
  }

  function CountChildren(t: Tree, parent: Path): nat {
    var key := Normalize(parent);
    |set i | 0 <= i < |t.folders| && ParentPath(t.folders[i].path) == key| +
    |set i | 0 <= i < |t.requests| && Normalize(t.requests[i].folder) == key|
  }

  function SortKey(f: Folder): Key {
    Key(f.seqNo, if Trim(f.name) != [] then f.name else if !Blank(f.displayPath) then Join(f.displayPath, "/") else Join(f.path, "/"))
  }

  predicate FolderLeq(a: Folder, b: Folder) {
    KeyLeq(SortKey(a), SortKey(b))
  }

  function Sort(folders: seq<Folder>): seq<Folder> {
    StableSort(FolderLeq, folders)
  }

  /** The physical and display path of the parent folder, the root's being empty. */
  function ParentPaths(folders: seq<Folder>, parent: Path): Option<(Path, Path)> {
    var key := Normalize(parent);
    if key == [] then Some(([], []))
    else
      var i := FindFolder(folders, key);
      if i == |folders| then None else Some((Normalize(folders[i].path), Display(folders[i])))
  }

  function NewFolder(t: Tree, path: Path, display: Path, name: string, directory: Segment): Folder {
    Folder(JoinPath(path, [directory]), JoinPath(display, Pieces(name)), name, CountChildren(t, path) + 1)
  }

  function CreateRefusal(t: Tree, parent: Path, folderName: string, directory: Segment, disk: bool): Option<Error> {
    var home := ParentPaths(t.folders, parent);
    if Trim(folderName) == [] then Some(NameRequired)
    else if home.None? then Some(NotFound)
    else if home.value.0 == [] && Lower(Trim(directory)) == "environments" then Some(Reserved)
    else if HasChild(t.folders, home.value.0, directory) then Some(Duplicate)
    else if !disk then Some(Disk)
    else None
  }

  /** The change, and then whatever marking it reports. */
  function Marked(t: Tree, answers: Answers): Reply {
    Reply(t, if answers.saved then None else Some(Unsaved))
  }

  function Create(t: Tree, parent: Path, folderName: string, directory: Segment, answers: Answers): Reply {
    var error := CreateRefusal(t, parent, folderName, directory, answers.disk);
    var home := ParentPaths(t.folders, parent);
    if error.Some? || home.None? then Reply(t, error)
    else
      var f := NewFolder(t, home.value.0, home.value.1, Trim(folderName), directory);
      Marked(Tree(Sort(t.folders + [f]), t.requests), answers)
  }

  datatype Move = Move(oldPath: Path, newPath: Path, oldDisplay: Path, newDisplay: Path)

  function MovedFolder(f: Folder, m: Move): Folder {
    var path := ReplacePrefix(f.path, m.oldPath, m.newPath);
    var display := ReplacePrefix(Chosen(f.(path := path)), m.oldDisplay, m.newDisplay);
    Folder(path, display, if Normalize(path) == m.newPath then Base(Normalize(m.newDisplay)) else f.name, f.seqNo)
  }

  function MovedRequest(r: Request, m: Move): Request {
    Request(ReplacePrefix(r.folder, m.oldDisplay, m.newDisplay), Replace(r.file, m.oldPath, m.newPath))
  }

  function MovedFolders(folders: seq<Folder>, m: Move): (r: seq<Folder>)
    ensures |r| == |folders|
  {
    seq(|folders|, i requires 0 <= i < |folders| => MovedFolder(folders[i], m))
  }

  function MovedRequests(requests: seq<Request>, m: Move): (r: seq<Request>)
    ensures |r| == |requests|
  {
    seq(|requests|, i requires 0 <= i < |requests| => MovedRequest(requests[i], m))
  }

  function MoveOf(f: Folder, name: string, directory: Segment): Move {
    var path, display := Normalize(f.path), Display(f);
    Move(path, JoinPath(ParentPath(path), [directory]), display, JoinPath(ParentPath(display), Pieces(name)))
  }

  /** The move as the update takes it, its paths normalised once more. */
  function Keys(m: Move): Move {
    Move(Normalize(m.oldPath), Normalize(m.newPath), Normalize(m.oldDisplay), Normalize(m.newDisplay))
  }

  function Renamed(t: Tree, m: Move): Tree {
    Tree(Sort(MovedFolders(t.folders, Keys(m))), MovedRequests(t.requests, Keys(m)))
  }

  predicate ReservedName(directory: string) {
    Lower(directory) == "collection" || Lower(directory) == "folder"
  }

  function RenameRefusal(t: Tree, folder: Path, folderName: string, directory: Segment, disk: bool): Option<Error> {
    var name := Trim(folderName);
    var key := Normalize(folder);
    var i := FindFolder(t.folders, key);
    if name == [] then Some(NameRequired)
    else if |name| > 255 then Some(NameTooLong)
    else if key == [] || i == |t.folders| || Normalize(t.folders[i].path) == [] then Some(NotFound)
    else if ReservedName(directory) then Some(Reserved)
    else
      var m := MoveOf(t.folders[i], name, directory);
      if m.newPath != m.oldPath && HasChild(t.folders, ParentPath(m.oldPath), directory) then Some(Duplicate)
      else if !disk then Some(Disk)
      else None
  }

  /** The move an accepted rename makes. */
  function MoveFor(t: Tree, folder: Path, name: string, directory: Segment): Move
    requires FindFolder(t.folders, Normalize(folder)) < |t.folders|
  {
    Keys(MoveOf(t.folders[FindFolder(t.folders, Normalize(folder))], Trim(name), directory))
  }

  function Rename(t: Tree, folder: Path, folderName: string, directory: Segment, answers: Answers): Reply {
    var error := RenameRefusal(t, folder, folderName, directory, answers.disk);
    var i := FindFolder(t.folders, Normalize(folder));
    if error.Some? || i == |t.folders| then Reply(t, error)
    else
      Marked(Renamed(t, MoveOf(t.folders[i], Trim(folderName), directory)), answers)
  }

  predicate FolderGoes(f: Folder, path: Path, display: Path) {
    HasPrefix(Normalize(f.path), path) || HasPrefix(Display(f), display)
  }

  predicate RequestGoes(r: Request, path: Path, display: Path) {
    HasPrefix(Normalize(r.folder), display) || HasPrefix(Normalize(r.folder), path) || (r.file != [] && path <= r.file)
  }

  function KeptFolders(folders: seq<Folder>, path: Path, display: Path): seq<Folder> {
    if folders == [] then []
    else
      var n := |folders| - 1;
      KeptFolders(folders[..n], path, display) + if FolderGoes(folders[n], path, display) then [] else [folders[n]]
  }

  function KeptRequests(requests: seq<Request>, path: Path, display: Path): seq<Request> {
    if requests == [] then []
    else
      var n := |requests| - 1;
      KeptRequests(requests[..n], path, display) + if RequestGoes(requests[n], path, display) then [] else [requests[n]]
  }

  /** The folder a deletion finds, if its path is not empty. */
  predicate Deletable(t: Tree, folder: Path) {
    var key := Normalize(folder);
    var i := FindFolder(t.folders, key);
    key != [] && i < |t.folders| && Normalize(t.folders[i].path) != []
  }

  function Deleted(t: Tree, gone: Folder): Tree {
    var path, display := Normalize(gone.path), Display(gone);
    Tree(Sort(KeptFolders(t.folders, path, display)), KeptRequests(t.requests, path, display))
  }

  function DeleteRefusal(t: Tree, folder: Path, disk: bool): Option<Error> {
    if !Deletable(t, folder) then Some(NotFound) else if !disk then Some(Disk) else None
  }

  /** The checks come before the removal from memory, everything else after it. */
  function Delete(t: Tree, folder: Path, answers: Answers): Reply {
    var error := DeleteRefusal(t, folder, answers.disk);
    if error.Some? then Reply(t, error)
    else
      var left := Deleted(t, t.folders[FindFolder(t.folders, Normalize(folder))]);
      if !answers.removed then Reply(left, Some(Disk))
      else if !answers.renumbered then Reply(left, Some(Unnumbered))
      else Marked(left, answers)
  }

  datatype Op =
    | CreateFolder(parent: Path, name: string, directory: Segment, answers: Answers)
    | RenameFolder(folder: Path, name: string, directory: Segment, answers: Answers)
    | DeleteFolder(folder: Path, answers: Answers)

  function Outcome(t: Tree, op: Op): Reply {
    match op
    case CreateFolder(parent, name, directory, answers) => Create(t, parent, name, directory, answers)
    case RenameFolder(folder, name, directory, answers) => Rename(t, folder, name, directory, answers)
    case DeleteFolder(folder, answers) => Delete(t, folder, answers)
  }

  /** What the checks of an operation refuse it with, before it changes anything. */
  function Refusal(t: Tree, op: Op): Option<Error> {
    match op
    case CreateFolder(parent, name, directory, answers) => CreateRefusal(t, parent, name, directory, answers.disk)
    case RenameFolder(folder, name, directory, answers) => RenameRefusal(t, folder, name, directory, answers.disk)
    case DeleteFolder(folder, answers) => DeleteRefusal(t, folder, answers.disk)
  }

  function Run(t: Tree, ops: seq<Op>): Tree {
    if ops == [] then t else Outcome(Run(t, ops[..|ops| - 1]), ops[|ops| - 1]).tree
  }

  // --- what every operation keeps --------------------------------------------------------------

  ghost predicate HasPath(folders: seq<Folder>, p: Path) {
    exists f <- folders :: f.path == p
  }

  ghost predicate HasDisplay(folders: seq<Folder>, p: Path) {
    exists f <- folders :: Display(f) == p
  }

  /** No two folders have the same physical path. */
  ghost predicate Unique(folders: seq<Folder>) {
    Distinct(folders) && forall f, g :: f in folders && g in folders && f.path == g.path ==> f == g
  }

  /** Every folder's path is one of names, and its parent folder is there. */
  ghost predicate Rooted(folders: seq<Folder>) {
    forall f <- folders :: Plain(f.path) && (|f.path| > 1 ==> HasPath(folders, Parent(f.path)))
  }

  /** The stored display path is one of names. */
  predicate Shown(f: Folder) {
    Plain(Normalize(f.displayPath))
  }

  /** Every folder is displayed below the folders around it. */
  ghost predicate Coherent(folders: seq<Folder>) {
    && (forall f <- folders :: Shown(f))
    && (forall f, g :: f in folders && g in folders && Below(g.path, f.path) ==> Below(Display(g), Display(f)))
  }

  /** Every request is at the root or in some folder's display path. */
  ghost predicate Housed(folders: seq<Folder>, requests: seq<Request>) {
    forall r <- requests :: Normalize(r.folder) == [] || HasDisplay(folders, Normalize(r.folder))
  }

  ghost predicate Inv(t: Tree) {
    Unique(t.folders) && Rooted(t.folders) && Coherent(t.folders) && Housed(t.folders, t.requests)
  }

  lemma ShownDisplay(f: Folder)
    requires Shown(f)
    ensures Chosen(f) == f.displayPath && Display(f) == Normalize(f.displayPath)
    ensures Plain(Display(f)) && Normalize(Display(f)) == Display(f)
  {
    if Blank(f.displayPath) {
      BlankIsEmpty(f.displayPath);
    }
    NormalizePlain(Normalize(f.displayPath));
    hide Normalize;
  }

  lemma SortKeeps(folders: seq<Folder>, requests: seq<Request>)
    requires Inv(Tree(folders, requests))
    ensures Inv(Tree(Sort(folders), requests))
  {
    var s := Sort(folders);
    SortPermutes(FolderLeq, folders);
    assert multiset(folders) == multiset(s);
    hide Sort;
    hide Shown;
    hide Display;
    hide Normalize;
    PermutationDistinct(folders, s);
    SameFolders(folders, s);
    hide Distinct;
    SameRooted(folders, s);
    SameHoused(folders, s, requests);
    hide Rooted;
    hide Housed;
  }

  /** And conversely: nothing that is wrong before sorting is right after. */
  lemma SortShows(folders: seq<Folder>, f: Folder)
    requires f in folders
    ensures f in Sort(folders)
  {
    InSorted(FolderLeq, folders, f);
  }

  lemma SameRooted(xs: seq<Folder>, ys: seq<Folder>)
    requires Rooted(xs) && forall f :: f in xs <==> f in ys
    ensures Rooted(ys)
  {
    SubFolders(xs, ys);
    hide HasPath;
    hide Plain;
  }

  lemma SameHoused(xs: seq<Folder>, ys: seq<Folder>, requests: seq<Request>)
    requires Housed(xs, requests) && forall f :: f in xs <==> f in ys
    ensures Housed(ys, requests)
  {
    SubFolders(xs, ys);
    hide HasDisplay;
    hide Normalize;
  }

  lemma SameFolders(xs: seq<Folder>, ys: seq<Folder>)
    requires multiset(xs) == multiset(ys)
    ensures forall f :: f in xs <==> f in ys
  {
    assert forall f :: f in xs <==> f in multiset(xs);
    assert forall f :: f in ys <==> f in multiset(ys);
  }

  lemma SubFolders(xs: seq<Folder>, ys: seq<Folder>)
    requires forall f <- xs :: f in ys
    ensures forall p :: HasPath(xs, p) ==> HasPath(ys, p)
    ensures forall p :: HasDisplay(xs, p) ==> HasDisplay(ys, p)
  {
    hide Display;
  }

  /** The duplicate check sees only direct children; with every parent present that shuts
      out everything below the new path as well. */
  lemma {:induction false} NothingBelow(folders: seq<Folder>, p: Path, f: Folder)
    requires Rooted(folders) && p != [] && !HasPath(folders, p)
    requires f in folders
    ensures !Below(f.path, p)
    decreases |f.path|
  {
    if Below(f.path, p) {
      assert |f.path| > |p|;
      var g :| g in folders && g.path == Parent(f.path);
      NothingBelow(folders, p, g);
    }
  }

  lemma ChildIsNamed(f: Folder, parent: Path, directory: Segment)
    requires f.path == parent + [directory] && Plain(f.path)
    ensures ChildNamed(f, parent, directory)
  {
    NormalizePlain(f.path);
    ParentOfPlain(f.path);
    hide Normalize;
    hide ParentPath;
    assert Parent(f.path) == parent && Base(f.path) == directory;
  }

  lemma FreeName(folders: seq<Folder>, parent: Path, directory: Segment)
    requires Rooted(folders) && (parent == [] || Plain(parent)) && !HasChild(folders, parent, directory)
    ensures forall f <- folders :: !Below(f.path, parent + [directory])
  {
    var p := parent + [directory];
    NormalizePlain(parent);
    hide Normalize;
    forall f <- folders
      ensures f.path != p
    {
      if f.path == p {
        ChildIsNamed(f, parent, directory);
      }
    }
    hide Rooted;
    hide ChildNamed;
    forall f <- folders
      ensures !Below(f.path, p)
    {
      NothingBelow(folders, p, f);
    }
  }

  // --- creating --------------------------------------------------------------------------------

  lemma CreateKeepsTree(t: Tree, parent: Path, folderName: string, directory: Segment, answers: Answers)
    requires Inv(t)
    ensures Inv(Create(t, parent, folderName, directory, answers).tree) <==>
            Sound(t, CreateFolder(parent, folderName, directory, answers))
  {
    hide CreateRefusal;
    hide ParentPaths;
    hide NewFolder;
    hide Sort;
    hide Inv;
    if CreateRefusal(t, parent, folderName, directory, answers.disk).None? {
      CreateAccepted(t, parent, folderName, directory, answers.disk);
      CreatedTree(t, parent, Trim(folderName), directory);
    }
  }

  lemma CreateAccepted(t: Tree, parent: Path, folderName: string, directory: Segment, disk: bool)
    requires CreateRefusal(t, parent, folderName, directory, disk).None?
    ensures ParentPaths(t.folders, parent).Some?
    ensures !HasChild(t.folders, ParentPaths(t.folders, parent).value.0, directory)
  {
    hide HasChild;
    hide ParentPaths;
  }

  lemma CreatedAs(t: Tree, parent: Path, name: string, directory: Segment, answers: Answers)
    requires CreateRefusal(t, parent, name, directory, answers.disk).None?
    ensures ParentPaths(t.folders, parent).Some?
    ensures var home := ParentPaths(t.folders, parent).value;
            Create(t, parent, name, directory, answers) ==
            Marked(Tree(Sort(t.folders + [NewFolder(t, home.0, home.1, Trim(name), directory)]), t.requests), answers)
  {
    CreateAccepted(t, parent, name, directory, answers.disk);
    hide CreateRefusal;
    hide ParentPaths;
    hide NewFolder;
    hide Sort;
    hide HasChild;
  }

  /** Whether a new folder is displayed where the folder around it is. */
  predicate Fits(f: Folder, around: Path) {
    Shown(f) && Below(Normalize(f.displayPath), around)
  }

  lemma CreatedTree(t: Tree, parent: Path, name: string, directory: Segment)
    requires Inv(t) && ParentPaths(t.folders, parent).Some?
    requires !HasChild(t.folders, ParentPaths(t.folders, parent).value.0, directory)
    ensures var home := ParentPaths(t.folders, parent).value;
            var f := NewFolder(t, home.0, home.1, name, directory);
            Inv(Tree(Sort(t.folders + [f]), t.requests)) <==> Fits(f, home.1)
  {
    var home := ParentPaths(t.folders, parent).value;
    var f := NewFolder(t, home.0, home.1, name, directory);
    var i := Placed(t, parent, name, directory);
    hide ParentPaths;
    hide NewFolder;
    hide HasChild;
    hide Normalize;
    hide Sort;
    hide Shown;
    hide Display;
    var around := if home.0 == [] then f else t.folders[i];
    if Fits(f, home.1) {
      AddKeepsTree(t, f, around);
      hide Inv;
      SortKeeps(t.folders + [f], t.requests);
    } else {
      AddBreaksTree(t, f, home.1, around);
    }
  }

  lemma AddBreaksTree(t: Tree, f: Folder, display: Path, around: Folder)
    requires !Fits(f, display)
    requires if Parent(f.path) == [] then display == [] else around in t.folders && around.path == Parent(f.path) && Display(around) == display
    ensures !Inv(Tree(Sort(t.folders + [f]), t.requests))
  {
    SortShows(t.folders + [f], f);
    if Parent(f.path) != [] {
      SortShows(t.folders + [f], around);
    }
    if Shown(f) {
      ShownDisplay(f);
      assert Below(f.path, Parent(f.path));
    }
    hide Sort;
    hide Display;
    hide Normalize;
    hide Unique;
    hide Rooted;
    hide Housed;
  }

  /** The folder a new one goes into. */
  lemma HomeFound(t: Tree, parent: Path) returns (i: nat)
    requires Rooted(t.folders) && ParentPaths(t.folders, parent).Some?
    ensures var home := ParentPaths(t.folders, parent).value;
            if home.0 == [] then home.1 == []
            else i < |t.folders| && t.folders[i] in t.folders && t.folders[i].path == home.0 &&
                 Display(t.folders[i]) == home.1 && Plain(home.0)
  {
    i := FindFolder(t.folders, Normalize(parent));
    if Normalize(parent) != [] {
      assert t.folders[i] in t.folders;
      NormalizePlain(t.folders[i].path);
    }
    hide Normalize;
    hide Display;
    hide HasPath;
  }

  lemma Placed(t: Tree, parent: Path, name: string, directory: Segment) returns (i: nat)
    requires Rooted(t.folders) && Coherent(t.folders)
    requires ParentPaths(t.folders, parent).Some? && !HasChild(t.folders, ParentPaths(t.folders, parent).value.0, directory)
    ensures var home := ParentPaths(t.folders, parent).value;
            var f := NewFolder(t, home.0, home.1, name, directory);
            && Plain(f.path) && Parent(f.path) == home.0 && (forall g <- t.folders :: !Below(g.path, f.path))
            && (if home.0 == [] then home.1 == []
                else i < |t.folders| && t.folders[i] in t.folders && t.folders[i].path == home.0 && Display(t.folders[i]) == home.1)
  {
    i := HomeFound(t, parent);
    var home := ParentPaths(t.folders, parent).value;
    FreeName(t.folders, home.0, directory);
    JoinOne(home.0, directory);
    hide ParentPaths;
    hide HasChild;
    hide CountChildren;
    hide Display;
    hide JoinPath;
    hide Rooted;
    hide Coherent;
    hide Plain;
    assert Parent(home.0 + [directory]) == home.0;
  }

  lemma AddKeepsTree(t: Tree, f: Folder, home: Folder)
    requires Inv(t) && Plain(f.path) && Shown(f)
    requires forall g <- t.folders :: !Below(g.path, f.path)
    requires Parent(f.path) != [] ==> home in t.folders && home.path == Parent(f.path) && Below(Normalize(f.displayPath), Display(home))
    ensures Inv(Tree(t.folders + [f], t.requests))
  {
    var all := t.folders + [f];
    ShownDisplay(f);
    hide Normalize;
    hide Display;
    hide Shown;
    SubFolders(t.folders, all);
    assert Unique(all) by {
      hide Plain;
      forall g <- t.folders
        ensures g.path != f.path
      {
        assert !Below(g.path, f.path);
      }
      DistinctSnoc(t.folders, f);
    }
    assert Rooted(all) by {
      hide Distinct;
      hide Plain;
      assert |f.path| > 1 ==> home in all;
    }
    assert Coherent(all) by {
      hide Distinct;
      hide HasPath;
      AddCoherent(t.folders, f, home);
    }
    assert Housed(all, t.requests) by {
      hide HasDisplay;
    }
  }

  lemma AddCoherent(folders: seq<Folder>, f: Folder, home: Folder)
    requires Coherent(folders) && f.path != [] && Shown(f)
    requires forall g <- folders :: g.path != [] && !Below(g.path, f.path)
    requires Parent(f.path) != [] ==> home in folders && home.path == Parent(f.path) && Below(Display(f), Display(home))
    ensures Coherent(folders + [f])
  {
    hide Display;
    hide Shown;
    forall g <- folders | Below(f.path, g.path)
      ensures Below(Display(f), Display(g))
    {
      assert Below(f.path, f.path) && !Below(g.path, f.path);
      ProperPrefix(g.path, f.path);
      assert Below(home.path, g.path);
    }
  }

  // --- paths and prefixes ----------------------------------------------------------------------

  lemma ProperPrefix(p: Path, q: Path)
    requires p <= q && p != q
    ensures p <= Parent(q)
  {
  }

  lemma PrefixesCompare(p: Path, q: Path, r: Path)
    requires p <= r && q <= r
    ensures p <= q || q <= p
  {
    if |p| <= |q| {
      assert p == r[..|p|] == q[..|p|];
    } else {
      assert q == r[..|q|] == p[..|q|];
    }
  }

  lemma PrefixChain(p: Path, q: Path, r: Path)
    requires q <= r
    ensures p <= q ==> p <= r
  {
  }

  /** A new path beside the old one, clear of everything outside the old one. */
  predicate Clear(p: Path, oldTop: Path, newTop: Path) {
    oldTop != [] && newTop != [] && Parent(oldTop) == Parent(newTop) && (oldTop != newTop ==> !(newTop <= p))
  }

  /** Replacing a prefix neither makes nor breaks ancestry. */
  lemma AncestryKept(u: Path, v: Path, oldTop: Path, newTop: Path)
    requires Clear(u, oldTop, newTop) && Clear(v, oldTop, newTop)
    ensures Replace(u, oldTop, newTop) <= Replace(v, oldTop, newTop) <==> u <= v
  {
    var a, b := Replace(u, oldTop, newTop), Replace(v, oldTop, newTop);
    if oldTop <= u && oldTop <= v {
      SharedPrefix(oldTop, newTop, u[|oldTop|..], v[|oldTop|..]);
      assert u == oldTop + u[|oldTop|..] && v == oldTop + v[|oldTop|..];
    } else if oldTop <= u {
      assert newTop <= a;
      assert a <= b ==> newTop <= b;
      assert u <= v ==> oldTop <= v;
      if oldTop == newTop {
        assert u == oldTop + u[|oldTop|..];
      }
    } else if oldTop <= v {
      AncestryAbove(u, v, oldTop, newTop);
    }
  }

  lemma SharedPrefix(p: Path, q: Path, x: Path, y: Path)
    ensures p + x <= p + y <==> x <= y
    ensures q + x <= q + y <==> x <= y
  {
    assert (p + x)[|p|..] == x && (p + y)[|p|..] == y;
    assert (q + x)[|q|..] == x && (q + y)[|q|..] == y;
    if p + x <= p + y {
      assert x == (p + y)[..|p + x|][|p|..];
    }
    if q + x <= q + y {
      assert x == (q + y)[..|q + x|][|q|..];
    }
  }

  lemma AncestryAbove(u: Path, v: Path, oldTop: Path, newTop: Path)
    requires Clear(u, oldTop, newTop) && Clear(v, oldTop, newTop)
    requires !(oldTop <= u) && oldTop <= v
    ensures u <= Replace(v, oldTop, newTop) <==> u <= v
  {
    var b := Replace(v, oldTop, newTop);
    assert b == newTop + v[|oldTop|..] && newTop <= b;
    assert Parent(oldTop) <= oldTop && Parent(newTop) <= newTop;
    if u <= v {
      PrefixesCompare(u, oldTop, v);
      ProperPrefix(u, oldTop);
    }
    if u <= b {
      PrefixesCompare(u, newTop, b);
      assert u != newTop;
      if u <= newTop {
        ProperPrefix(u, newTop);
      }
    }
  }

  /** Replacing a prefix and replacing it back restores a path exactly when it was below
      the old prefix or is not below the new one. */
  lemma ReplacedBack(p: Path, oldTop: Path, newTop: Path)
    requires oldTop != [] && newTop != []
    ensures Replace(Replace(p, oldTop, newTop), newTop, oldTop) == p <==> (oldTop <= p || !(newTop <= p))
  {
    var q := Replace(p, oldTop, newTop);
    if oldTop <= p {
      assert q == newTop + p[|oldTop|..];
      assert q[|newTop|..] == p[|oldTop|..];
      assert p == oldTop + p[|oldTop|..];
    } else if newTop <= p {
      assert oldTop <= Replace(p, newTop, oldTop);
    }
  }

  lemma MovedParent(p: Path, oldTop: Path, newTop: Path)
    requires Clear(p, oldTop, newTop) && |Replace(p, oldTop, newTop)| > 1
    ensures |p| > 1 && Replace(Parent(p), oldTop, newTop) == Parent(Replace(p, oldTop, newTop))
  {
    assert |oldTop| == |newTop|;
    if p == oldTop {
      assert !(oldTop <= Parent(p));
      assert p[|oldTop|..] == [] && newTop + [] == newTop;
    } else if oldTop <= p {
      ProperPrefix(oldTop, p);
      assert Parent(p)[|oldTop|..] == p[|oldTop|..][..|p| - |oldTop| - 1];
    } else {
      PrefixChain(oldTop, Parent(p), p);
    }
  }

  // --- renaming --------------------------------------------------------------------------------

  lemma ReplacePlain(v: Path, oldTop: Path, newTop: Path)
    requires Plain(v) && Plain(oldTop) && Plain(newTop)
    ensures Plain(Replace(v, oldTop, newTop))
  {
    if oldTop <= v {
      var rest := v[|oldTop|..];
      assert forall i :: 0 <= i < |rest| ==> rest[i] == v[|oldTop| + i];
      PlainJoin(newTop, rest);
    }
  }

  lemma StripRest(v: Path, n: nat)
    requires Plain(v) && n < |v|
    ensures StripSlashes(v[n..]) == v[n..]
  {
    assert IsSegment(v[n]) && IsSegment(v[|v| - 1]);
    StripPlain(v[n..]);
  }

  /** On keys made of names, prefixes are replaced as one expects, up to normalising the
      new prefix. */
  lemma ReplacesPrefix(value: Path, oldTop: Path, newTop: Path)
    requires Plain(Normalize(value)) && Plain(oldTop) && Plain(Normalize(Normalize(newTop)))
    ensures Normalize(ReplacePrefix(value, oldTop, newTop)) == Replace(Normalize(value), oldTop, Normalize(Normalize(newTop)))
    ensures Plain(Normalize(ReplacePrefix(value, oldTop, newTop)))
    ensures Plain(newTop) ==> ReplacePrefix(value, oldTop, newTop) == Replace(Normalize(value), oldTop, newTop)
  {
    var v, n := Normalize(value), Normalize(newTop);
    NormalizePlain(oldTop);
    NormalizePlain(v);
    ReplacePlain(v, oldTop, Normalize(n));
    NormalizePlain(Replace(v, oldTop, Normalize(n)));
    if Plain(newTop) {
      NormalizePlain(newTop);
    }
    hide Normalize;
    hide Plain;
    if oldTop <= v && v != oldTop {
      StripRest(v, |oldTop|);
      hide StripSlashes;
      assert JoinPath(n, v[|oldTop|..]) == Normalize(n) + v[|oldTop|..];
    } else if v == oldTop {
      assert v[|oldTop|..] == [];
      assert Normalize(n) + [] == Normalize(n);
      assert newTop + [] == newTop;
    }
  }

  lemma ReplacesNothing(value: Path, oldTop: Path, newTop: Path)
    requires Normalize(value) == [] && Plain(oldTop)
    ensures ReplacePrefix(value, oldTop, newTop) == [] && Normalize(ReplacePrefix(value, oldTop, newTop)) == []
  {
    NormalizePlain(oldTop);
    NormalizePlain([]);
    hide Normalize;
  }

  /** Where the renamed folder ends up displayed. */
  function Final(m: Move): Path {
    Normalize(Normalize(m.newDisplay))
  }

  /** A move as a rename makes it: beside the old path, and nobody below the new one. */
  ghost predicate Proper(folders: seq<Folder>, m: Move) {
    && Plain(m.oldPath) && Plain(m.newPath) && Plain(m.oldDisplay)
    && (forall f <- folders :: Clear(f.path, m.oldPath, m.newPath))
  }

  lemma MovedParts(f: Folder, m: Move)
    requires Plain(f.path) && Shown(f) && Plain(m.oldPath) && Plain(m.newPath) && Plain(m.oldDisplay) && Plain(Final(m))
    ensures MovedFolder(f, m).path == Replace(f.path, m.oldPath, m.newPath) && Plain(MovedFolder(f, m).path)
    ensures Shown(MovedFolder(f, m))
    ensures Display(MovedFolder(f, m)) == Replace(Display(f), m.oldDisplay, Final(m))
  {
    var g := f.(path := ReplacePrefix(f.path, m.oldPath, m.newPath));
    NormalizePlain(f.path);
    NormalizePlain(m.newPath);
    ShownDisplay(f);
    ShownDisplay(g);
    ReplacesPrefix(f.path, m.oldPath, m.newPath);
    ReplacesPrefix(f.displayPath, m.oldDisplay, m.newDisplay);
    ReplacePlain(f.path, m.oldPath, m.newPath);
    hide Normalize;
    hide ReplacePrefix;
    hide Chosen;
    hide Plain;
    hide Replace;
    assert MovedFolder(f, m).displayPath == ReplacePrefix(f.displayPath, m.oldDisplay, m.newDisplay);
    ShownDisplay(MovedFolder(f, m));
  }

  lemma MovedPath(f: Folder, m: Move)
    requires Plain(f.path) && Plain(m.oldPath) && Plain(m.newPath)
    ensures MovedFolder(f, m).path == Replace(f.path, m.oldPath, m.newPath) && Plain(MovedFolder(f, m).path)
  {
    NormalizePlain(f.path);
    NormalizePlain(m.newPath);
    ReplacesPrefix(f.path, m.oldPath, m.newPath);
    ReplacePlain(f.path, m.oldPath, m.newPath);
    hide Normalize;
    hide ReplacePrefix;
    hide Chosen;
  }

  /** Only the renamed folder itself gets a name. */
  lemma MovedName(f: Folder, m: Move)
    requires Plain(f.path) && Plain(m.oldPath) && Plain(m.newPath) && Clear(f.path, m.oldPath, m.newPath)
    ensures MovedFolder(f, m).name == if f.path == m.oldPath then Base(Normalize(m.newDisplay)) else f.name
    ensures MovedFolder(f, m).seqNo == f.seqNo
  {
    MovedPath(f, m);
    NormalizePlain(Replace(f.path, m.oldPath, m.newPath));
    hide Normalize;
    hide ReplacePrefix;
    hide Chosen;
    hide Plain;
    var g := MovedFolder(f, m);
    assert g.path == ReplacePrefix(f.path, m.oldPath, m.newPath);
    if f.path == m.oldPath {
      assert f.path[|m.oldPath|..] == [] && m.newPath + [] == m.newPath;
    } else if m.oldPath <= f.path {
      assert |g.path| > |m.newPath|;
    }
  }

  /** No folder that stays where it is displayed is left above one that moves away. */
  ghost predicate NoneBetween(folders: seq<Folder>, oldTop: Path, newTop: Path) {
    forall u, v :: u in folders && v in folders && Below(v.path, u.path) && Below(Display(v), oldTop) && !Below(Display(u), oldTop)
      ==> Below(Replace(Display(v), oldTop, newTop), Display(u))
  }

  lemma NoneBetweenBeside(folders: seq<Folder>, oldTop: Path, newTop: Path)
    requires Coherent(folders) && oldTop != [] && Parent(oldTop) <= newTop
    ensures NoneBetween(folders, oldTop, newTop)
  {
    hide Display;
    hide Shown;
    forall u, v | u in folders && v in folders && Below(v.path, u.path) && Below(Display(v), oldTop) && !Below(Display(u), oldTop)
      ensures Below(Replace(Display(v), oldTop, newTop), Display(u))
    {
      PrefixesCompare(Display(u), oldTop, Display(v));
      ProperPrefix(Display(u), oldTop);
      PrefixChain(Display(u), Parent(oldTop), newTop);
      PrefixChain(Display(u), newTop, Replace(Display(v), oldTop, newTop));
    }
  }

  lemma MovedIn(folders: seq<Folder>, m: Move, f: Folder) returns (k: nat)
    requires f in MovedFolders(folders, m)
    ensures k < |folders| && folders[k] in folders && MovedFolders(folders, m)[k] == f == MovedFolder(folders[k], m)
  {
    k :| 0 <= k < |folders| && MovedFolders(folders, m)[k] == f;
  }

  lemma MovedTo(folders: seq<Folder>, m: Move, f: Folder)
    requires f in folders
    ensures MovedFolder(f, m) in MovedFolders(folders, m)
  {
    var k :| 0 <= k < |folders| && folders[k] == f;
    assert MovedFolders(folders, m)[k] == MovedFolder(f, m);
  }

  lemma MoveKeepsUnique(folders: seq<Folder>, m: Move)
    requires Unique(folders) && Rooted(folders) && Proper(folders, m)
    ensures Unique(MovedFolders(folders, m))
  {
    var ms := MovedFolders(folders, m);
    hide MovedFolder;
    hide Plain;
    hide HasPath;
    forall i, j | 0 <= i < |folders| && 0 <= j < |folders| && ms[i].path == ms[j].path
      ensures i == j
    {
      SamePath(folders, m, i, j);
    }
  }

  lemma SamePath(folders: seq<Folder>, m: Move, i: nat, j: nat)
    requires Unique(folders) && Rooted(folders) && Proper(folders, m) && i < |folders| && j < |folders|
    requires MovedFolder(folders[i], m).path == MovedFolder(folders[j], m).path
    ensures i == j
  {
    var p, q := folders[i].path, folders[j].path;
    assert folders[i] in folders && folders[j] in folders;
    MovedPath(folders[i], m);
    MovedPath(folders[j], m);
    AncestryKept(p, q, m.oldPath, m.newPath);
    AncestryKept(q, p, m.oldPath, m.newPath);
    hide MovedFolder;
    hide Replace;
    hide Plain;
    assert p <= q && q <= p;
    assert folders[i] == folders[j];
  }

  lemma MoveKeepsRooted(folders: seq<Folder>, m: Move)
    requires Rooted(folders) && Proper(folders, m)
    ensures Rooted(MovedFolders(folders, m))
  {
    var ms := MovedFolders(folders, m);
    hide MovedFolder;
    forall f <- ms
      ensures Plain(f.path) && (|f.path| > 1 ==> HasPath(ms, Parent(f.path)))
    {
      var i := MovedIn(folders, m, f);
      var p := folders[i].path;
      MovedPath(folders[i], m);
      if |f.path| > 1 {
        MovedParent(p, m.oldPath, m.newPath);
        hide Replace;
          hide Plain;
        var h :| h in folders && h.path == Parent(p);
        MovedPath(h, m);
        MovedTo(folders, m, h);
      }
    }
  }

  lemma MoveKeepsCoherent(folders: seq<Folder>, m: Move)
    requires Rooted(folders) && Coherent(folders) && Proper(folders, m) && Plain(Final(m))
    ensures Coherent(MovedFolders(folders, m)) <==> NoneBetween(folders, m.oldDisplay, Final(m))
  {
    var ms := MovedFolders(folders, m);
    hide MovedFolder;
    hide Plain;
    hide Final;
    hide Display;
    hide Shown;
    hide HasPath;
    if NoneBetween(folders, m.oldDisplay, Final(m)) {
      forall f <- ms
        ensures Shown(f)
      {
        var i := MovedIn(folders, m, f);
        MovedParts(folders[i], m);
      }
      forall f, g | f in ms && g in ms && Below(g.path, f.path)
        ensures Below(Display(g), Display(f))
      {
        var i := MovedIn(folders, m, f);
        var j := MovedIn(folders, m, g);
        CoherentPair(folders[i], folders[j], m);
      }
    } else {
      var u, v :| u in folders && v in folders && Below(v.path, u.path) && Below(Display(v), m.oldDisplay) &&
                  !Below(Display(u), m.oldDisplay) && !Below(Replace(Display(v), m.oldDisplay, Final(m)), Display(u));
      BrokenPair(folders, u, v, m);
    }
  }

  lemma BrokenPair(folders: seq<Folder>, u: Folder, v: Folder, m: Move)
    requires u in folders && v in folders && Below(v.path, u.path) && Plain(u.path) && Plain(v.path) && Shown(u) && Shown(v)
    requires Proper(folders, m) && Plain(Final(m))
    requires !Below(Display(u), m.oldDisplay) && !Below(Replace(Display(v), m.oldDisplay, Final(m)), Display(u))
    ensures !Coherent(MovedFolders(folders, m))
  {
    MovedParts(u, m);
    MovedParts(v, m);
    MovedTo(folders, m, u);
    MovedTo(folders, m, v);
    AncestryKept(u.path, v.path, m.oldPath, m.newPath);
    assert Display(MovedFolder(u, m)) == Display(u);
    hide MovedFolder;
    hide Replace;
    hide Plain;
    hide Final;
    hide Display;
    hide Shown;
    assert Below(MovedFolder(v, m).path, MovedFolder(u, m).path);
  }

  lemma CoherentPair(f: Folder, g: Folder, m: Move)
    requires Clear(f.path, m.oldPath, m.newPath) && Clear(g.path, m.oldPath, m.newPath)
    requires Plain(f.path) && Plain(g.path) && Shown(f) && Shown(g)
    requires Plain(m.oldPath) && Plain(m.newPath) && Plain(m.oldDisplay) && Plain(Final(m))
    requires Below(g.path, f.path) ==> Below(Display(g), Display(f))
    requires Below(g.path, f.path) && Below(Display(g), m.oldDisplay) && !Below(Display(f), m.oldDisplay) ==>
             Below(Replace(Display(g), m.oldDisplay, Final(m)), Display(f))
    ensures Below(MovedFolder(g, m).path, MovedFolder(f, m).path) ==>
            Below(Display(MovedFolder(g, m)), Display(MovedFolder(f, m)))
  {
    MovedParts(f, m);
    MovedParts(g, m);
    AncestryKept(f.path, g.path, m.oldPath, m.newPath);
    hide MovedFolder;
    hide Plain;
    hide Final;
    if Below(g.path, f.path) {
      DisplayKept(Display(f), Display(g), m.oldDisplay, Final(m));
    }
    hide Replace;
    hide Display;
  }

  lemma DisplayKept(u: Path, v: Path, oldTop: Path, newTop: Path)
    requires u <= v && oldTop != [] && (oldTop <= v && !(oldTop <= u) ==> u <= Replace(v, oldTop, newTop))
    ensures Replace(u, oldTop, newTop) <= Replace(v, oldTop, newTop)
  {
    if oldTop <= u {
      PrefixChain(oldTop, u, v);
      assert u == oldTop + u[|oldTop|..] && v == oldTop + v[|oldTop|..];
      SharedPrefix(oldTop, newTop, u[|oldTop|..], v[|oldTop|..]);
    }
  }

  lemma MoveKeepsHoused(folders: seq<Folder>, requests: seq<Request>, m: Move)
    requires Rooted(folders) && Coherent(folders) && Housed(folders, requests) && Proper(folders, m) && Plain(Final(m))
    ensures Housed(MovedFolders(folders, m), MovedRequests(requests, m))
  {
    var ms, rs := MovedFolders(folders, m), MovedRequests(requests, m);
    hide MovedFolder;
    hide Plain;
    hide Final;
    hide Normalize;
    hide Display;
    hide Shown;
    hide HasPath;
    forall r <- rs
      ensures Normalize(r.folder) == [] || HasDisplay(ms, Normalize(r.folder))
    {
      var i :| 0 <= i < |rs| && rs[i] == r;
      assert requests[i] in requests;
      if Normalize(requests[i].folder) == [] {
        ReplacesNothing(requests[i].folder, m.oldDisplay, m.newDisplay);
      } else {
        var f :| f in folders && Display(f) == Normalize(requests[i].folder);
        MovedParts(f, m);
        MovedTo(folders, m, f);
        ShownDisplay(f);
        MovedKey(requests[i], m);
      }
    }
  }

  lemma MovedKey(r: Request, m: Move)
    requires Normalize(r.folder) == [] || Plain(Normalize(r.folder))
    requires Plain(m.oldDisplay) && Plain(Final(m))
    ensures Normalize(MovedRequest(r, m).folder) == Replace(Normalize(r.folder), m.oldDisplay, Final(m))
  {
    if Normalize(r.folder) == [] {
      ReplacesNothing(r.folder, m.oldDisplay, m.newDisplay);
      hide Normalize;
    } else {
      ReplacesPrefix(r.folder, m.oldDisplay, m.newDisplay);
      hide Normalize;
    }
  }

  function After(t: Tree, m: Move): Tree {
    Tree(Sort(MovedFolders(t.folders, m)), MovedRequests(t.requests, m))
  }

  lemma InAfter(t: Tree, m: Move, f: Folder)
    ensures f in After(t, m).folders <==> f in MovedFolders(t.folders, m)
  {
    InSorted(FolderLeq, MovedFolders(t.folders, m), f);
    hide MovedFolders;
  }

  /** A rename keeps the tree exactly when it leaves its folder a display path made of names
      and no folder that stays put above one that moves away. */
  lemma MoveKeepsTree(t: Tree, f: Folder, m: Move)
    requires Inv(t) && Proper(t.folders, m) && f in t.folders && Display(f) == m.oldDisplay
    ensures Inv(Tree(Sort(MovedFolders(t.folders, m)), MovedRequests(t.requests, m))) <==>
            Plain(Final(m)) && NoneBetween(t.folders, m.oldDisplay, Final(m))
  {
    hide MovedFolders;
    hide MovedRequests;
    hide Sort;
    hide Plain;
    hide Final;
    hide NoneBetween;
    hide Display;
    if Plain(Final(m)) {
      MoveKeepsUnique(t.folders, m);
      MoveKeepsRooted(t.folders, m);
      MoveKeepsCoherent(t.folders, m);
      MoveKeepsHoused(t.folders, t.requests, m);
      hide Unique;
      hide Rooted;
      hide Coherent;
      hide Housed;
      if NoneBetween(t.folders, m.oldDisplay, Final(m)) {
        SortKeeps(MovedFolders(t.folders, m), MovedRequests(t.requests, m));
      } else {
        SortIncoherent(MovedFolders(t.folders, m));
      }
    } else {
      NotShown(t, f, m);
    }
  }

  lemma SortIncoherent(folders: seq<Folder>)
    requires !Coherent(folders)
    ensures !Coherent(Sort(folders))
  {
    SortPermutes(FolderLeq, folders);
    SameFolders(folders, Sort(folders));
    hide Sort;
    hide Shown;
    hide Display;
  }

  lemma NotShown(t: Tree, f: Folder, m: Move)
    requires Coherent(t.folders) && f in t.folders && Display(f) == m.oldDisplay && !Plain(Final(m))
    ensures !Inv(Tree(Sort(MovedFolders(t.folders, m)), MovedRequests(t.requests, m)))
  {
    ShownDisplay(f);
    var g := MovedFolder(f, m);
    ShownDisplay(f.(path := ReplacePrefix(f.path, m.oldPath, m.newPath)));
    NormalizePlain(m.oldDisplay);
    MovedTo(t.folders, m, f);
    SortShows(MovedFolders(t.folders, m), g);
    hide MovedFolders;
    hide MovedRequests;
    hide Sort;
    hide Display;
    hide Normalize;
    hide Chosen;
    hide Unique;
    hide Rooted;
    hide Housed;
    assert g.displayPath == Normalize(m.newDisplay);
  }

  lemma RenameIsProper(folders: seq<Folder>, f: Folder, name: string, directory: Segment)
    requires Rooted(folders) && Coherent(folders) && f in folders
    requires var m := MoveOf(f, name, directory);
             m.newPath == m.oldPath || !HasChild(folders, ParentPath(m.oldPath), directory)
    ensures var m := MoveOf(f, name, directory);
            && Proper(folders, Keys(m)) && Keys(m).oldDisplay == Display(f) && Keys(m).oldPath == f.path
            && Keys(m).newPath == m.newPath == Parent(f.path) + [directory]
            && Keys(m).newDisplay == Normalize(JoinPath(ParentPath(Display(f)), Pieces(name)))
  {
    var m := MoveOf(f, name, directory);
    NormalizePlain(f.path);
    ParentOfPlain(f.path);
    ShownDisplay(f);
    JoinOne(Parent(f.path), directory);
    NormalizePlain(m.newPath);
    assert Parent(m.newPath) == Parent(m.oldPath);
    hide Normalize;
    hide JoinPath;
    hide ParentPath;
    hide Pieces;
    hide Plain;
    if m.newPath != m.oldPath {
      FreeName(folders, Parent(m.oldPath), directory);
    }
    hide HasChild;
    hide Display;
  }

  lemma RenameAccepted(t: Tree, folder: Path, folderName: string, directory: Segment, disk: bool)
    requires RenameRefusal(t, folder, folderName, directory, disk).None?
    ensures FindFolder(t.folders, Normalize(folder)) < |t.folders|
    ensures var m := MoveOf(t.folders[FindFolder(t.folders, Normalize(folder))], Trim(folderName), directory);
            m.newPath == m.oldPath || !HasChild(t.folders, ParentPath(m.oldPath), directory)
  {
    hide HasChild;
    hide Normalize;
    hide MoveOf;
    hide ParentPath;
  }

  lemma RenameKeepsTree(t: Tree, folder: Path, folderName: string, directory: Segment, answers: Answers)
    requires Inv(t)
    ensures Inv(Rename(t, folder, folderName, directory, answers).tree) <==>
            Sound(t, RenameFolder(folder, folderName, directory, answers))
  {
    hide RenameRefusal;
    hide Sort;
    hide HasChild;
    hide MoveOf;
    hide Keys;
    hide Final;
    hide NoneBetween;
    hide MovedFolders;
    hide MovedRequests;
    hide Normalize;
    hide Display;
    if RenameRefusal(t, folder, folderName, directory, answers.disk).None? {
      RenameAccepted(t, folder, folderName, directory, answers.disk);
      var f := t.folders[FindFolder(t.folders, Normalize(folder))];
      var m := MoveOf(f, Trim(folderName), directory);
      RenameIsProper(t.folders, f, Trim(folderName), directory);
      hide Proper;
      MoveKeepsTree(t, f, Keys(m));
      hide Inv;
    }
  }

  // --- over every run ----------------------------------------------------------------------------

  /** Whether an accepted operation leaves every folder displayed by names, below the
      folders around it: a new folder below its parent, a renamed one with nothing left
      behind above it. */
  ghost predicate Sound(t: Tree, op: Op) {
    Refusal(t, op).Some? ||
    match op
    case CreateFolder(parent, name, directory, _) =>
      var home := ParentPaths(t.folders, parent);
      home.Some? && Fits(NewFolder(t, home.value.0, home.value.1, Trim(name), directory), home.value.1)
    case RenameFolder(folder, name, directory, _) =>
      var i := FindFolder(t.folders, Normalize(folder));
      i < |t.folders| &&
      var m := Keys(MoveOf(t.folders[i], Trim(name), directory));
      Plain(Final(m)) && NoneBetween(t.folders, m.oldDisplay, Final(m))
    case DeleteFolder(_, _) => true
  }

  lemma SoundRename(t: Tree, folder: Path, name: string, directory: Segment, answers: Answers)
    requires RenameRefusal(t, folder, name, directory, answers.disk).None?
    requires Sound(t, RenameFolder(folder, name, directory, answers))
    ensures FindFolder(t.folders, Normalize(folder)) < |t.folders| && Plain(Final(MoveFor(t, folder, name, directory)))
  {
    hide RenameRefusal;
    hide MoveOf;
    hide Keys;
    hide NoneBetween;
    hide Plain;
    hide Final;
    hide Normalize;
  }

  lemma RenamedIsAfter(t: Tree, folder: Path, name: string, directory: Segment, answers: Answers)
    requires RenameRefusal(t, folder, name, directory, answers.disk).None?
    ensures FindFolder(t.folders, Normalize(folder)) < |t.folders|
    ensures Rename(t, folder, name, directory, answers).tree == After(t, MoveFor(t, folder, name, directory))
  {
    RenameAccepted(t, folder, name, directory, answers.disk);
    hide RenameRefusal;
    hide MoveOf;
    hide Keys;
    hide Sort;
    hide MovedFolders;
    hide MovedRequests;
    hide Normalize;
  }

  /** One operation keeps the tree exactly when it is sound; a deletion always does. */
  lemma StepKeepsTree(t: Tree, op: Op)
    requires Inv(t)
    ensures Inv(Outcome(t, op).tree) <==> op.DeleteFolder? || Sound(t, op)
  {
    hide Inv;
    match op
    case CreateFolder(parent, name, directory, answers) =>
      CreateKeepsTree(t, parent, name, directory, answers);
    case RenameFolder(folder, name, directory, answers) =>
      RenameKeepsTree(t, folder, name, directory, answers);
    case DeleteFolder(folder, answers) =>
      DeleteKeepsTree(t, folder, answers);
  }

  /** Between slashes nothing but names, and at least one. */
  predicate GoodPieces(name: string) {
    (forall s <- Pieces(name) :: s == [] || IsSegment(s)) && NonEmpty(Pieces(name)) != []
  }

  predicate Nameable(op: Op) {
    match op
    case CreateFolder(_, name, _, _) => GoodPieces(Trim(name))
    case RenameFolder(_, name, _, _) => GoodPieces(Trim(name))
    case DeleteFolder(_, _) => true
  }

  lemma NameableIsSound(t: Tree, op: Op)
    requires Inv(t) && Nameable(op)
    ensures op.DeleteFolder? || Sound(t, op)
  {
    hide HasChild;
    if Refusal(t, op).None? {
      match op
      case CreateFolder(parent, name, directory, answers) =>
        CreateAccepted(t, parent, name, directory, answers.disk);
        GoodCreate(t, parent, Trim(name), directory);
      case RenameFolder(folder, name, directory, answers) =>
        RenameAccepted(t, folder, name, directory, answers.disk);
        GoodRename(t, FindFolder(t.folders, Normalize(folder)), Trim(name), directory);
      case DeleteFolder(_, _) =>
    }
  }

  lemma GoodCreate(t: Tree, parent: Path, name: string, directory: Segment)
    requires Inv(t) && GoodPieces(name) && ParentPaths(t.folders, parent).Some?
    requires !HasChild(t.folders, ParentPaths(t.folders, parent).value.0, directory)
    ensures var home := ParentPaths(t.folders, parent).value;
            Fits(NewFolder(t, home.0, home.1, name, directory), home.1)
  {
    var home := ParentPaths(t.folders, parent).value;
    var i := Placed(t, parent, name, directory);
    if home.0 != [] {
      ShownDisplay(t.folders[i]);
    }
    GoodName(home.1, Pieces(name));
    hide ParentPaths;
    hide HasChild;
    hide Normalize;
    hide JoinPath;
    hide CountChildren;
    hide Display;
    hide Inv;
  }

  /** A name made of names moves its folder beside where it was displayed. */
  lemma GoodRename(t: Tree, i: nat, name: string, directory: Segment)
    requires Inv(t) && GoodPieces(name) && i < |t.folders|
    requires var m := MoveOf(t.folders[i], name, directory);
             m.newPath == m.oldPath || !HasChild(t.folders, ParentPath(m.oldPath), directory)
    ensures var m := Keys(MoveOf(t.folders[i], name, directory));
            && Final(m) == Parent(m.oldDisplay) + NonEmpty(Pieces(name)) && Plain(Final(m))
            && NoneBetween(t.folders, m.oldDisplay, Final(m))
  {
    var f := t.folders[i];
    assert f in t.folders;
    RenameIsProper(t.folders, f, name, directory);
    ShownDisplay(f);
    ParentOfPlain(Display(f));
    GoodName(Parent(Display(f)), Pieces(name));
    var key := Parent(Display(f)) + NonEmpty(Pieces(name));
    NormalizePlain(key);
    hide Normalize;
    hide JoinPath;
    hide ParentPath;
    hide MoveOf;
    hide Keys;
    hide Display;
    NoneBetweenBeside(t.folders, Display(f), key);
  }

  /** Over every run in which names are made of names: distinct physical paths, every
      parent present, displays nested like the paths, every request in a folder. */
  lemma {:induction false} RunKeepsTree(t: Tree, ops: seq<Op>)
    requires Inv(t) && forall op <- ops :: Nameable(op)
    ensures Inv(Run(t, ops))
  {
    if ops != [] {
      var n := |ops| - 1;
      assert ops[n] in ops && forall op <- ops[..n] :: op in ops;
      RunKeepsTree(t, ops[..n]);
      hide Inv;
      hide Sound;
      hide Nameable;
      hide Outcome;
      NameableIsSound(Run(t, ops[..n]), ops[n]);
      StepKeepsTree(Run(t, ops[..n]), ops[n]);
    }
  }

  /** The name ".." breaks the tree wherever it is accepted two levels down: the new folder
      is displayed above the one that holds it, and deleting it deletes that one too. */
  lemma DotDotBreaksTree(t: Tree, home: Folder, directory: Segment)
    requires Inv(t) && home in t.folders && |Display(home)| > 1
    requires !HasChild(t.folders, home.path, directory)
    requires FindFolder(t.folders, home.path) < |t.folders| && t.folders[FindFolder(t.folders, home.path)] == home
    ensures var r := Create(t, home.path, "..", directory, ALL_WELL);
            && r.error.None? && !Inv(r.tree)
            && exists f <- r.tree.folders :: f.path == home.path + [directory] && Display(f) == Parent(Display(home)) &&
                                             FolderGoes(home, f.path, Display(f))
  {
    DotDotUnsound(t, home, directory);
    hide Inv;
    hide Sound;
    hide Display;
    hide FolderGoes;
    hide Create;
    CreateKeepsTree(t, home.path, "..", directory, ALL_WELL);
  }

  lemma DotDotUnsound(t: Tree, home: Folder, directory: Segment)
    requires Plain(home.path) && Shown(home) && |Display(home)| > 1 && !HasChild(t.folders, home.path, directory)
    requires FindFolder(t.folders, home.path) < |t.folders| && t.folders[FindFolder(t.folders, home.path)] == home
    ensures var r := Create(t, home.path, "..", directory, ALL_WELL);
            && r.error.None? && !Sound(t, CreateFolder(home.path, "..", directory, ALL_WELL))
            && exists f <- r.tree.folders :: f.path == home.path + [directory] && Display(f) == Parent(Display(home)) &&
                                             FolderGoes(home, f.path, Display(f))
  {
    var f := DotDotFolder(t, home, directory);
    DotDotAccepted(t, home, directory);
    TwoDots();
    hide CreateRefusal;
    hide ParentPaths;
    hide NewFolder;
    hide HasChild;
    hide Sort;
    hide Display;
    hide FolderGoes;
    hide Fits;
    hide Plain;
    hide Normalize;
    CreatedAs(t, home.path, "..", directory, ALL_WELL);
    SortShows(t.folders + [f], f);
    hide Create;
    Misfit(t, home.path, "..", directory);
    hide Sound;
    assert f in Create(t, home.path, "..", directory, ALL_WELL).tree.folders;
  }

  lemma Misfit(t: Tree, parent: Path, name: string, directory: Segment)
    requires CreateRefusal(t, parent, name, directory, true).None? && ParentPaths(t.folders, parent).Some?
    requires var home := ParentPaths(t.folders, parent).value;
             !Fits(NewFolder(t, home.0, home.1, Trim(name), directory), home.1)
    ensures !Sound(t, CreateFolder(parent, name, directory, ALL_WELL))
  {
    hide CreateRefusal;
    hide ParentPaths;
    hide NewFolder;
    hide Fits;
  }

  lemma DotDotAccepted(t: Tree, home: Folder, directory: Segment)
    requires Plain(home.path) && !HasChild(t.folders, home.path, directory)
    requires FindFolder(t.folders, home.path) < |t.folders| && t.folders[FindFolder(t.folders, home.path)] == home
    ensures ParentPaths(t.folders, home.path) == Some((home.path, Display(home)))
    ensures CreateRefusal(t, home.path, "..", directory, true).None?
  {
    NormalizePlain(home.path);
    TwoDots();
    PlainNotEmpty(home.path);
    hide Normalize;
    hide HasChild;
    hide Display;
    hide Plain;
  }

  lemma DotDotFolder(t: Tree, home: Folder, directory: Segment) returns (f: Folder)
    requires Plain(home.path) && Shown(home) && |Display(home)| > 1
    ensures f == NewFolder(t, home.path, Display(home), "..", directory)
    ensures f.path == home.path + [directory] && Display(f) == Parent(Display(home))
    ensures FolderGoes(home, f.path, Display(f)) && !Fits(f, Display(home))
  {
    f := NewFolder(t, home.path, Display(home), "..", directory);
    ShownDisplay(home);
    DotNames(Display(home));
    TwoDots();
    JoinOne(home.path, directory);
    PlainPrefix(Display(home), |Display(home)| - 1);
    assert Shown(f);
    ShownDisplay(f);
    PrefixOfPlain(Display(home), Display(f));
    hide Normalize;
    hide JoinPath;
    hide CountChildren;
    hide Pieces;
    hide Display;
    hide HasPrefix;
  }

  lemma TwoDots()
    ensures Pieces("..") == [".."] && Trim("..") == ".."
  {
    SplitOne("..", '/');
    SpacesApart();
    TrimIsTrimmed("..");
  }

  /** A name of slashes leaves a folder at the root without a display path. */
  lemma SlashBreaksTree(t: Tree, directory: Segment)
    requires Inv(t) && !HasChild(t.folders, [], directory) && Lower(Trim(directory)) != "environments"
    ensures var r := Create(t, [], "/", directory, ALL_WELL);
            r.error.None? && !Inv(r.tree)
  {
    SlashUnsound(t, directory);
    hide Inv;
    hide Create;
    hide Sound;
    CreateKeepsTree(t, [], "/", directory, ALL_WELL);
  }

  lemma SlashUnsound(t: Tree, directory: Segment)
    requires !HasChild(t.folders, [], directory) && Lower(Trim(directory)) != "environments"
    ensures Create(t, [], "/", directory, ALL_WELL).error.None?
    ensures !Sound(t, CreateFolder([], "/", directory, ALL_WELL))
  {
    NormalizePlain([]);
    SlashPieces();
    var f := NewFolder(t, [], [], "/", directory);
    assert f.displayPath == [];
    assert !Fits(f, []);
    hide Normalize;
    hide JoinPath;
    hide NewFolder;
    hide Fits;
    hide Sort;
    hide HasChild;
    assert ParentPaths(t.folders, []) == Some(([], []));
  }

  lemma SlashPieces()
    ensures Trim("/") == "/" && Pieces("/") == ["", ""] && StripSlashes(["", ""]) == []
  {
    SplitCons("", '/', "");
    assert "" + ['/'] + "" == "/";
    TrimIsTrimmed("/");
    assert Split("", '/') == [""];
    assert ["", ""][1..] == [""] && [""][1..] == [];
  }

  // --- deleting ------------------------------------------------------------------------------

  lemma {:induction false} KeptFoldersAre(folders: seq<Folder>, path: Path, display: Path)
    ensures forall f :: f in KeptFolders(folders, path, display) <==> f in folders && !FolderGoes(f, path, display)
    ensures Distinct(folders) ==> Distinct(KeptFolders(folders, path, display))
  {
    hide FolderGoes;
    if folders != [] {
      var n := |folders| - 1;
      KeptFoldersAre(folders[..n], path, display);
      assert folders == folders[..n] + [folders[n]];
      if Distinct(folders) {
        assert folders[n] !in folders[..n];
      }
    }
  }

  lemma {:induction false} KeptRequestsAre(requests: seq<Request>, path: Path, display: Path)
    ensures forall r :: r in KeptRequests(requests, path, display) <==> r in requests && !RequestGoes(r, path, display)
  {
    hide RequestGoes;
    if requests != [] {
      var n := |requests| - 1;
      KeptRequestsAre(requests[..n], path, display);
      assert requests == requests[..n] + [requests[n]];
    }
  }

  lemma PrefixOfPlain(p: Path, prefix: Path)
    requires (p == [] || Plain(p)) && Plain(prefix)
    ensures HasPrefix(Normalize(p), prefix) <==> prefix <= p
    ensures HasPrefix(p, prefix) <==> prefix <= p
  {
    NormalizePlain(p);
    NormalizePlain(prefix);
    hide Normalize;
  }

  lemma GoesBelow(f: Folder, gone: Folder)
    requires Plain(f.path) && Plain(gone.path) && Shown(f) && Shown(gone)
    ensures FolderGoes(f, Normalize(gone.path), Display(gone)) <==>
            Below(f.path, gone.path) || Below(Display(f), Display(gone))
  {
    NormalizePlain(gone.path);
    ShownDisplay(f);
    ShownDisplay(gone);
    PrefixOfPlain(f.path, gone.path);
    PrefixOfPlain(Display(f), Display(gone));
    hide Normalize;
    hide Display;
    hide HasPrefix;
  }

  lemma RequestBelow(r: Request, gone: Folder)
    requires (Normalize(r.folder) == [] || Plain(Normalize(r.folder))) && Plain(gone.path) && Shown(gone)
    ensures RequestGoes(r, Normalize(gone.path), Display(gone)) <==>
            Below(Normalize(r.folder), Display(gone)) || Below(Normalize(r.folder), gone.path) || Below(r.file, gone.path)
  {
    NormalizePlain(gone.path);
    ShownDisplay(gone);
    PrefixOfPlain(Normalize(r.folder), gone.path);
    PrefixOfPlain(Normalize(r.folder), Display(gone));
    NormalizePlain(Normalize(r.folder));
    hide Normalize;
    hide Display;
    hide HasPrefix;
  }

  /** No kept folder loses its parent, and no kept request its folder. */
  lemma DeleteKeepsTree(t: Tree, folder: Path, answers: Answers)
    requires Inv(t)
    ensures Inv(Delete(t, folder, answers).tree)
  {
    if Deletable(t, folder) && answers.disk {
      var gone := t.folders[FindFolder(t.folders, Normalize(folder))];
      assert gone in t.folders;
      var path, display := Normalize(gone.path), Display(gone);
      KeptFoldersAre(t.folders, path, display);
      KeptRequestsAre(t.requests, path, display);
      var fs, rs := KeptFolders(t.folders, path, display), KeptRequests(t.requests, path, display);
      assert Delete(t, folder, answers).tree == Tree(Sort(fs), rs);
      hide Delete;
      hide KeptFolders;
      hide KeptRequests;
      hide Sort;
      hide FolderGoes;
      hide RequestGoes;
      hide Normalize;
      hide Display;
      hide Distinct;
      KeptTree(t, gone, fs, rs);
      SortKeeps(fs, rs);
    }
  }

  lemma KeptTree(t: Tree, gone: Folder, fs: seq<Folder>, rs: seq<Request>)
    requires Inv(t) && gone in t.folders && Distinct(fs)
    requires forall f :: f in fs <==> f in t.folders && !FolderGoes(f, Normalize(gone.path), Display(gone))
    requires forall r <- rs :: r in t.requests && !RequestGoes(r, Normalize(gone.path), Display(gone))
    ensures Inv(Tree(fs, rs))
  {
    hide Distinct;
    hide FolderGoes;
    hide RequestGoes;
    hide Normalize;
    hide Display;
    hide Shown;
    hide Plain;
    forall f <- fs | |f.path| > 1
      ensures HasPath(fs, Parent(f.path))
    {
      var g :| g in t.folders && g.path == Parent(f.path);
      assert Below(f.path, g.path);
      StaysToo(g, f, gone);
    }
    forall r <- rs | Normalize(r.folder) != []
      ensures HasDisplay(fs, Normalize(r.folder))
    {
      var f :| f in t.folders && Display(f) == Normalize(r.folder);
      assert Below(f.path, gone.path) ==> Below(Display(f), Display(gone));
      GoesBelow(f, gone);
      ShownDisplay(f);
      RequestBelow(r, gone);
    }
  }

  lemma StaysToo(g: Folder, f: Folder, gone: Folder)
    requires Plain(f.path) && Plain(g.path) && Plain(gone.path) && Shown(f) && Shown(g) && Shown(gone)
    requires Below(f.path, g.path) && Below(Display(f), Display(g))
    requires !FolderGoes(f, Normalize(gone.path), Display(gone))
    ensures !FolderGoes(g, Normalize(gone.path), Display(gone))
  {
    GoesBelow(f, gone);
    GoesBelow(g, gone);
    PrefixChain(gone.path, g.path, f.path);
    PrefixChain(Display(gone), Display(g), Display(f));
    hide FolderGoes;
    hide Display;
    hide Normalize;
  }

  lemma GoneFolder(t: Tree, folder: Path, gone: Folder)
    requires Inv(t) && Deletable(t, folder) && gone == t.folders[FindFolder(t.folders, Normalize(folder))]
    ensures gone in t.folders && Plain(gone.path) && Shown(gone)
    ensures forall f :: f in Deleted(t, gone).folders <==>
            f in t.folders && !Below(f.path, gone.path) && !Below(Display(f), Display(gone))
  {
    assert gone in t.folders;
    var path, display := Normalize(gone.path), Display(gone);
    var fs := KeptFolders(t.folders, path, display);
    KeptFoldersAre(t.folders, path, display);
    hide KeptFolders;
    hide KeptRequests;
    hide Sort;
    hide FolderGoes;
    hide Distinct;
    hide Normalize;
    hide Display;
    hide HasPath;
    forall f
      ensures f in Sort(fs) <==> f in t.folders && !Below(f.path, gone.path) && !Below(Display(f), Display(gone))
    {
      InSorted(FolderLeq, fs, f);
      if f in t.folders {
        GoesBelow(f, gone);
      }
    }
  }

  /** A deleted folder takes its subtree and also every folder displayed below it, whose
      directory stays on disk. */
  lemma NamesakesGoToo(t: Tree, folder: Path, f: Folder)
    requires Inv(t) && Deletable(t, folder) && f in t.folders
    ensures var gone := t.folders[FindFolder(t.folders, Normalize(folder))];
            f in Delete(t, folder, ALL_WELL).tree.folders <==>
            !Below(f.path, gone.path) && !Below(Display(f), Display(gone))
  {
    GoneFolder(t, folder, t.folders[FindFolder(t.folders, Normalize(folder))]);
    hide Deleted;
    hide Normalize;
    hide Display;
    hide Shown;
    hide Inv;
  }

  /** Deleting a folder named ".." deletes the folder it was made in. */
  lemma DotDotDeletesAround(t: Tree, home: Folder, directory: Segment)
    requires Inv(t) && home in t.folders && |Display(home)| > 1
    requires !HasChild(t.folders, home.path, directory)
    requires FindFolder(t.folders, home.path) < |t.folders| && t.folders[FindFolder(t.folders, home.path)] == home
    ensures var r := Create(t, home.path, "..", directory, ALL_WELL);
            && r.error.None? && home in r.tree.folders
            && (Hits(r.tree, home.path + [directory]) ==>
                home !in Delete(r.tree, home.path + [directory], ALL_WELL).tree.folders)
  {
    var r := Create(t, home.path, "..", directory, ALL_WELL);
    DotDotUnsound(t, home, directory);
    var f := DotDotFolder(t, home, directory);
    DotDotCreated(t, home, directory, f);
    SortShows(t.folders + [f], home);
    FreeName(t.folders, home.path, directory);
    JoinOne(home.path, directory);
    hide Create;
    hide Normalize;
    hide Display;
    hide FolderGoes;
    hide NewFolder;
    hide HasChild;
    hide Inv;
    hide Sort;
    hide Delete;
    hide Plain;
    hide FindFolder;
    if Hits(r.tree, f.path) {
      AddedIs(t.folders, f, r.tree.folders[FindFolder(r.tree.folders, f.path)]);
      HitDeletes(r.tree, f, home);
    }
  }

  lemma AddedIs(folders: seq<Folder>, f: Folder, g: Folder)
    requires g in Sort(folders + [f]) && g.path == f.path && forall h <- folders :: !Below(h.path, f.path)
    ensures g == f
  {
    InSorted(FolderLeq, folders + [f], g);
    assert Below(g.path, f.path);
  }

  lemma HitDeletes(t: Tree, gone: Folder, f: Folder)
    requires Hits(t, gone.path) && t.folders[FindFolder(t.folders, gone.path)] == gone && Plain(gone.path)
    requires FolderGoes(f, gone.path, Display(gone))
    ensures f !in Delete(t, gone.path, ALL_WELL).tree.folders
  {
    NormalizePlain(gone.path);
    KeptFoldersAre(t.folders, gone.path, Display(gone));
    InSorted(FolderLeq, KeptFolders(t.folders, gone.path, Display(gone)), f);
    hide Normalize;
    hide Display;
    hide FolderGoes;
    hide KeptFolders;
    hide KeptRequests;
    hide Distinct;
  }

  lemma DotDotCreated(t: Tree, home: Folder, directory: Segment, f: Folder)
    requires Plain(home.path) && !HasChild(t.folders, home.path, directory)
    requires FindFolder(t.folders, home.path) < |t.folders| && t.folders[FindFolder(t.folders, home.path)] == home
    requires f == NewFolder(t, home.path, Display(home), "..", directory)
    ensures Create(t, home.path, "..", directory, ALL_WELL).tree == Tree(Sort(t.folders + [f]), t.requests)
  {
    DotDotAccepted(t, home, directory);
    TwoDots();
    CreatedAs(t, home.path, "..", directory, ALL_WELL);
    hide CreateRefusal;
    hide ParentPaths;
    hide NewFolder;
    hide Sort;
    hide Create;
    hide HasChild;
  }

  /** A request whose own folder survives still goes when its display path happens to lie
      below the deleted folder's physical path, or its file inside the deleted directory. */
  lemma SurvivingRequests(t: Tree, folder: Path, home: Folder, r: Request)
    requires Inv(t) && Deletable(t, folder)
    requires r in t.requests && Display(home) == Normalize(r.folder)
    requires home in Delete(t, folder, ALL_WELL).tree.folders
    ensures var gone := t.folders[FindFolder(t.folders, Normalize(folder))];
            r in Delete(t, folder, ALL_WELL).tree.requests <==>
            !Below(Normalize(r.folder), gone.path) && !Below(r.file, gone.path)
  {
    var gone := t.folders[FindFolder(t.folders, Normalize(folder))];
    GoneFolder(t, folder, gone);
    KeptRequestsAre(t.requests, Normalize(gone.path), Display(gone));
    ShownDisplay(home);
    RequestBelow(r, gone);
    hide KeptFolders;
    hide KeptRequests;
    hide RequestGoes;
    hide Sort;
    hide Normalize;
    hide Display;
  }

  // --- failures --------------------------------------------------------------------------------

  /** The same operation with everything outside going well. */
  function AllWell(op: Op): Op {
    op.(answers := ALL_WELL)
  }

  /** The checks passed, and something that comes after the change failed. */
  predicate LateFailure(t: Tree, op: Op) {
    Refusal(t, op).None? && (!op.answers.saved || (op.DeleteFolder? && !(op.answers.removed && op.answers.renumbered)))
  }

  /** An operation reports an error exactly when its checks refuse it or something fails
      after its change, and in the second case the change stays as it is. */
  lemma ErrorsAre(t: Tree, op: Op)
    ensures Outcome(t, op).error.Some? <==> Refusal(t, op).Some? || LateFailure(t, op)
    ensures Outcome(t, op).tree == if Refusal(t, op).Some? then t else Outcome(t, AllWell(op)).tree
    ensures Refusal(t, op).None? ==> Refusal(t, AllWell(op)).None? && Outcome(t, AllWell(op)).error.None?
  {
    Passing(t, op);
    Passing(t, AllWell(op));
    DiskLast(t, op);
    hide CreateRefusal;
    hide RenameRefusal;
    hide Deletable;
    hide ParentPaths;
    hide NewFolder;
    hide MoveOf;
    hide Renamed;
    hide Deleted;
    hide Sort;
    hide Normalize;
  }

  lemma Passing(t: Tree, op: Op)
    ensures op.CreateFolder? && CreateRefusal(t, op.parent, op.name, op.directory, op.answers.disk).None? ==>
            ParentPaths(t.folders, op.parent).Some?
    ensures op.RenameFolder? && RenameRefusal(t, op.folder, op.name, op.directory, op.answers.disk).None? ==>
            FindFolder(t.folders, Normalize(op.folder)) < |t.folders|
  {
    hide HasChild;
    hide ParentPaths;
    hide Normalize;
    hide MoveOf;
  }

  lemma DiskLast(t: Tree, op: Op)
    ensures Refusal(t, op).None? ==> Refusal(t, AllWell(op)).None?
  {
    hide HasChild;
    hide ParentPaths;
    hide Normalize;
    hide MoveOf;
    hide Deletable;
  }

  /** An operation that reports an error has changed the tree exactly when its checks passed
      and it was the removal, the renumbering or the marking that failed; a rename may be
      one that changes nothing anyway. */
  lemma FailureLeavesTree(t: Tree, op: Op)
    requires Inv(t) && Outcome(t, op).error.Some?
    ensures Outcome(t, op).tree != t <==>
            LateFailure(t, op) && (op.RenameFolder? ==> Outcome(t, AllWell(op)).tree != t)
  {
    ErrorsAre(t, op);
    if Refusal(t, op).None? {
      if op.CreateFolder? {
        CreatedMore(t, AllWell(op));
      } else if op.DeleteFolder? {
        DeletedLess(t, AllWell(op));
      }
    }
    hide Outcome;
    hide Refusal;
    hide LateFailure;
    hide Inv;
  }

  lemma SortedLength(folders: seq<Folder>)
    ensures |Sort(folders)| == |folders|
  {
    SortPermutes(FolderLeq, folders);
    assert |Sort(folders)| == |multiset(Sort(folders))| == |multiset(folders)|;
  }

  lemma CreatedMore(t: Tree, op: Op)
    requires op.CreateFolder? && Refusal(t, op).None?
    ensures Outcome(t, op).tree != t
  {
    CreatedAs(t, op.parent, op.name, op.directory, op.answers);
    var home := ParentPaths(t.folders, op.parent).value;
    SortedLength(t.folders + [NewFolder(t, home.0, home.1, Trim(op.name), op.directory)]);
    hide Create;
    hide CreateRefusal;
    hide ParentPaths;
    hide NewFolder;
    hide Sort;
  }

  lemma DeletedLess(t: Tree, op: Op)
    requires Inv(t) && op.DeleteFolder? && Refusal(t, op).None?
    ensures Outcome(t, op).tree != t
  {
    var gone := t.folders[FindFolder(t.folders, Normalize(op.folder))];
    GoneFolder(t, op.folder, gone);
    hide Deleted;
    hide Normalize;
    hide Display;
    assert gone !in Deleted(t, gone).folders;
  }

  /** The smallest such deletion: the only folder is gone from memory and still on disk. */
  lemma RefusedRemovalForgets(f: Folder, s: Segment)
    requires f == Folder([s], [s], s, 0)
    ensures Outcome(Tree([f], []), DeleteFolder([s], ALL_WELL.(removed := false))) == Reply(Tree([], []), Some(Disk))
  {
    NormalizePlain([s]);
    ShownDisplay(f);
    assert Found(f, [s]);
    assert Display(f) == [s];
    PrefixOfPlain([s], [s]);
    assert FolderGoes(f, [s], [s]);
    assert KeptFolders([f][..0], [s], [s]) == [];
    assert KeptFolders([f], [s], [s]) == [];
    SortPermutes(FolderLeq, []);
    assert |Sort([])| == |multiset(Sort([]))| == 0;
  }

  /** And the smallest such creation: the folder is there although an error is reported. */
  lemma UnsavedCreationStays(name: Segment, directory: Segment)
    requires Lower(Trim(directory)) != "environments"
    ensures Outcome(Tree([], []), CreateFolder([], name, directory, ALL_WELL.(saved := false))) ==
            Reply(Tree([Folder([directory], [name], name, 1)], []), Some(Unsaved))
  {
    var t := Tree([], []);
    TrimIsTrimmed(name);
    RootAccepts(name, directory);
    CreatedAs(t, [], name, directory, ALL_WELL.(saved := false));
    FirstFolder(name, directory);
    OneSorted(Folder([directory], [name], name, 1));
    hide Create;
    hide CreateRefusal;
    hide ParentPaths;
    hide NewFolder;
    hide Sort;
    hide Trim;
    assert t.folders + [Folder([directory], [name], name, 1)] == [Folder([directory], [name], name, 1)];
  }

  lemma RootAccepts(name: Segment, directory: Segment)
    requires Lower(Trim(directory)) != "environments"
    ensures ParentPaths([], []) == Some(([], []))
    ensures CreateRefusal(Tree([], []), [], name, directory, true).None?
  {
    NormalizePlain([]);
    TrimIsTrimmed(name);
    hide Normalize;
    hide Trim;
    hide Lower;
    hide ChildNamed;
  }

  lemma FirstFolder(name: Segment, directory: Segment)
    ensures NewFolder(Tree([], []), [], [], name, directory) == Folder([directory], [name], name, 1)
  {
    SplitOne(name, '/');
    JoinOne([], name);
    JoinOne([], directory);
    NoChildren();
    hide JoinPath;
    hide CountChildren;
  }

  lemma NoChildren()
    ensures CountChildren(Tree([], []), []) == 0
  {
    hide Normalize;
    hide ParentPath;
  }

  lemma OneSorted(f: Folder)
    ensures Sort([f]) == [f]
  {
    SortPermutes(FolderLeq, [f]);
    var s := Sort([f]);
    assert |s| == |multiset(s)| == |multiset([f])| == 1;
    assert s[0] in multiset(s);
  }

  // --- as the source runs it -----------------------------------------------------------------

  class Collection {
    var folders: seq<Folder>
    var requests: seq<Request>

    constructor (folders: seq<Folder>, requests: seq<Request>)
      ensures this.folders == folders && this.requests == requests
    {
      this.folders, this.requests := folders, requests;
    }

    function State(): Tree
      reads this
    {
      Tree(folders, requests)
    }

    method FindFolderIndex(folderPath: Path) returns (index: Option<nat>)
      ensures var key := Normalize(folderPath);
              index == if key != [] && FindFolder(folders, key) < |folders| then Some(FindFolder(folders, key)) else None
    {
      hide Normalize;
      hide FindFolder;
      var normalized := Normalize(folderPath);
      if normalized == [] {
        return None;
      }
      for i := 0 to |folders|
        invariant forall j :: 0 <= j < i ==> !Found(folders[j], normalized)
      {
        if Normalize(folders[i].path) == normalized || Normalize(folders[i].displayPath) == normalized {
          return Some(i);
        }
      }
      return None;
    }

    method HasChildFolder(parent: Path, directory: string) returns (found: bool)
      ensures found == HasChild(folders, parent, directory)
    {
      hide Normalize;
      hide ParentPath;
      hide Trim;
      var parentPath, name := Normalize(parent), Trim(directory);
      for i := 0 to |folders|
        invariant forall f <- folders[..i] :: !ChildNamed(f, parentPath, directory)
      {
        var folderPath := Normalize(folders[i].path);
        if ParentPath(folders[i].path) == parentPath && Trim(Base(folderPath)) == name {
          assert folders[i] in folders && ChildNamed(folders[i], parentPath, directory);
          return true;
        }
      }
      return false;
    }

    method CreateFolder(parent: Path, folderName: string, directory: Segment, answers: Answers) returns (error: Option<Error>)
      modifies this
      ensures Reply(State(), error) == Create(old(State()), parent, folderName, directory, answers)
    {
      hide Normalize;
      hide HasChild;
      hide Display;
      hide NewFolder;
      hide Sort;
      hide Trim;
      hide Lower;
      var name := Trim(folderName);
      if name == [] {
        return Some(NameRequired);
      }
      var parentPath, parentDisplayPath: Path := [], [];
      if Normalize(parent) != [] {
        var index := FindFolderIndex(parent);
        if index.None? {
          return Some(NotFound);
        }
        parentPath, parentDisplayPath := Normalize(folders[index.value].path), Display(folders[index.value]);
      }
      if parentPath == [] && Lower(Trim(directory)) == "environments" {
        return Some(Reserved);
      }
      var duplicate := HasChildFolder(parentPath, directory);
      if duplicate {
        return Some(Duplicate);
      }
      if !answers.disk {
        return Some(Disk);
      }
      folders := folders + [NewFolder(State(), parentPath, parentDisplayPath, name, directory)];
      folders := Sort(folders);
      return if answers.saved then None else Some(Unsaved);
    }

    /** Path first, then the display path from the updated path, then the name. */
    method UpdateRenameState(move: Move)
      modifies this
      ensures folders == Sort(MovedFolders(old(folders), Keys(move)))
      ensures requests == MovedRequests(old(requests), Keys(move))
    {
      hide ReplacePrefix;
      hide Chosen;
      hide Normalize;
      hide Sort;
      hide Keys;
      ghost var fs, rs := folders, requests;
      var m := Keys(move);
      for i := 0 to |folders|
        invariant |folders| == |fs| && requests == rs
        invariant folders[i..] == fs[i..]
        invariant folders[..i] == MovedFolders(fs, m)[..i]
      {
        assert folders[i] == folders[i..][0] == fs[i];
        var folder := folders[i];
        folder := folder.(path := ReplacePrefix(folder.path, m.oldPath, m.newPath));
        folder := folder.(displayPath := ReplacePrefix(Chosen(folder), m.oldDisplay, m.newDisplay));
        if Normalize(folder.path) == m.newPath {
          folder := folder.(name := Base(Normalize(m.newDisplay)));
        }
        folders := folders[i := folder];
        assert folders[i + 1..] == fs[i + 1..];
      }
      assert folders == MovedFolders(fs, m);
      for i := 0 to |requests|
        invariant |requests| == |rs| && folders == MovedFolders(fs, m)
        invariant requests[i..] == rs[i..]
        invariant requests[..i] == MovedRequests(rs, m)[..i]
      {
        assert requests[i] == requests[i..][0] == rs[i];
        var request := requests[i];
        request := request.(folder := ReplacePrefix(request.folder, m.oldDisplay, m.newDisplay));
        if m.oldPath <= request.file {
          request := request.(file := Replace(request.file, m.oldPath, m.newPath));
        }
        requests := requests[i := request];
        assert requests[i + 1..] == rs[i + 1..];
      }
      assert requests == MovedRequests(rs, m);
      folders := Sort(folders);
    }

    method RenameFolder(folderPath: Path, folderName: string, directory: Segment, answers: Answers)
      returns (error: Option<Error>)
      modifies this
      ensures Reply(State(), error) == Rename(old(State()), folderPath, folderName, directory, answers)
    {
      hide Normalize;
      hide HasChild;
      hide MoveOf;
      hide ParentPath;
      hide Sort;
      hide Trim;
      hide Lower;
      hide MovedFolders;
      hide MovedRequests;
      hide Keys;
      var name := Trim(folderName);
      if name == [] {
        return Some(NameRequired);
      }
      if |name| > 255 {
        return Some(NameTooLong);
      }
      var index := FindFolderIndex(folderPath);
      if index.None? || Normalize(folders[index.value].path) == [] {
        return Some(NotFound);
      }
      if Lower(directory) == "collection" || Lower(directory) == "folder" {
        return Some(Reserved);
      }
      var m := MoveOf(folders[index.value], name, directory);
      if m.newPath != m.oldPath {
        var duplicate := HasChildFolder(ParentPath(m.oldPath), directory);
        if duplicate {
          return Some(Duplicate);
        }
      }
      if !answers.disk {
        return Some(Disk);
      }
      UpdateRenameState(m);
      return if answers.saved then None else Some(Unsaved);
    }

    method DeleteFolder(folderPath: Path, answers: Answers) returns (error: Option<Error>)
      modifies this
      ensures Reply(State(), error) == Delete(old(State()), folderPath, answers)
    {
      hide Normalize;
      hide Display;
      hide Sort;
      hide FolderGoes;
      hide RequestGoes;
      var index := FindFolderIndex(folderPath);
      if index.None? || Normalize(folders[index.value].path) == [] {
        return Some(NotFound);
      }
      if !answers.disk {
        return Some(Disk);
      }
      var path, display := Normalize(folders[index.value].path), Display(folders[index.value]);
      var remainingRequests := [];
      for i := 0 to |requests|
        invariant remainingRequests == KeptRequests(requests[..i], path, display)
      {
        assert requests[..i + 1][..i] == requests[..i];
        if !RequestGoes(requests[i], path, display) {
          remainingRequests := remainingRequests + [requests[i]];
        }
      }
      assert requests[..|requests|] == requests;
      var remainingFolders := [];
      for i := 0 to |folders|
        invariant remainingFolders == KeptFolders(folders[..i], path, display)
      {
        assert folders[..i + 1][..i] == folders[..i];
        if !FolderGoes(folders[i], path, display) {
          remainingFolders := remainingFolders + [folders[i]];
        }
      }
      assert folders[..|folders|] == folders;
      requests := remainingRequests;
      folders := Sort(remainingFolders);
      if !answers.removed {
        return Some(Disk);
      }
      if !answers.renumbered {
        return Some(Unnumbered);
      }
      return if answers.saved then None else Some(Unsaved);
    }
  }
}
