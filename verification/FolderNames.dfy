// What each folder operation changes and answers, in full, and the names the folders carry.

module FolderNames {
  import opened FolderDisplays
  import opened FolderOrder
  import opened FolderPaths
  import opened FolderRenameBack
  import opened Ordering
  import opened Paths
  import opened Text

  // --- a rename in full --------------------------------------------------------------------------

  /** What a rename makes of one folder. */
  ghost predicate Carried(f: Folder, g: Folder, m: Move) {
    && g.path == Replace(f.path, m.oldPath, m.newPath)
    && Display(g) == Replace(Display(f), m.oldDisplay, Final(m))
    && g.name == (if f.path == m.oldPath then Base(Normalize(m.newDisplay)) else f.name)
    && g.seqNo == f.seqNo
  }

  ghost predicate AllCarried(folders: seq<Folder>, moved: seq<Folder>, m: Move) {
    forall f <- folders :: exists g <- moved :: Carried(f, g, m)
  }

  ghost predicate NoOthers(folders: seq<Folder>, moved: seq<Folder>, m: Move) {
    |moved| == |folders| && forall g <- moved :: exists f <- folders :: Carried(f, g, m)
  }

  ghost predicate RequestCarried(q: Request, r: Request, m: Move) {
    && Normalize(r.folder) == Replace(Normalize(q.folder), m.oldDisplay, Final(m))
    && r.file == Replace(q.file, m.oldPath, m.newPath)
  }

  ghost predicate RequestsCarried(requests: seq<Request>, moved: seq<Request>, m: Move) {
    |moved| == |requests| && forall i :: 0 <= i < |requests| ==> RequestCarried(requests[i], moved[i], m)
  }

  lemma MovedCarried(f: Folder, m: Move)
    requires Plain(f.path) && Shown(f) && Plain(m.oldPath) && Plain(m.newPath) && Plain(m.oldDisplay) && Plain(Final(m))
    requires Clear(f.path, m.oldPath, m.newPath)
    ensures Carried(f, MovedFolder(f, m), m)
  {
    MovedParts(f, m);
    MovedName(f, m);
    hide MovedFolder;
    hide Replace;
    hide Display;
    hide Final;
    hide Plain;
  }

  /** The move of an accepted rename, by the folder found and the names given. */
  lemma MoveGiven(t: Tree, folder: Path, name: string, directory: Segment, disk: bool) returns (f: Folder)
    requires Inv(t) && RenameRefusal(t, folder, name, directory, disk).None?
    ensures FindFolder(t.folders, Normalize(folder)) < |t.folders| && f == t.folders[FindFolder(t.folders, Normalize(folder))]
    ensures var m := MoveFor(t, folder, name, directory);
            && m.oldPath == f.path && m.newPath == Parent(f.path) + [directory] && m.oldDisplay == Display(f)
            && Proper(t.folders, m)
  {
    RenameAccepted(t, folder, name, directory, disk);
    f := t.folders[FindFolder(t.folders, Normalize(folder))];
    RenameIsProper(t.folders, f, Trim(name), directory);
    hide RenameRefusal;
    hide MoveOf;
    hide Keys;
    hide HasChild;
    hide Normalize;
    hide Display;
    hide JoinPath;
    hide ParentPath;
    hide Proper;
  }

  /** An accepted rename carries every folder over, makes no other, and moves the requests
      the same way. */
  lemma RenameEffect(t: Tree, folder: Path, name: string, directory: Segment, answers: Answers)
    requires Inv(t) && RenameRefusal(t, folder, name, directory, answers.disk).None?
    requires Sound(t, RenameFolder(folder, name, directory, answers))
    ensures FindFolder(t.folders, Normalize(folder)) < |t.folders|
    ensures var f, m := t.folders[FindFolder(t.folders, Normalize(folder))], MoveFor(t, folder, name, directory);
            m.oldPath == f.path && m.newPath == Parent(f.path) + [directory] && m.oldDisplay == Display(f)
    ensures var m, r := MoveFor(t, folder, name, directory), Rename(t, folder, name, directory, answers).tree;
            AllCarried(t.folders, r.folders, m) && NoOthers(t.folders, r.folders, m) && RequestsCarried(t.requests, r.requests, m)
  {
    var h := MoveGiven(t, folder, name, directory, answers.disk);
    var m := MoveFor(t, folder, name, directory);
    RenamedIsAfter(t, folder, name, directory, answers);
    SoundRename(t, folder, name, directory, answers);
    hide Sound;
    hide Rename;
    hide RenameRefusal;
    hide MoveFor;
    hide Normalize;
    hide Display;
    hide Final;
    hide After;
    hide AllCarried;
    hide NoOthers;
    hide RequestsCarried;
    FoldersCarry(t, m);
    RequestsCarry(t, m);
    hide Proper;
    hide Inv;
  }

  lemma FoldersCarry(t: Tree, m: Move)
    requires Inv(t) && Proper(t.folders, m) && Plain(Final(m))
    ensures AllCarried(t.folders, After(t, m).folders, m) && NoOthers(t.folders, After(t, m).folders, m)
  {
    var r := After(t, m);
    SortPermutes(FolderLeq, MovedFolders(t.folders, m));
    assert |multiset(r.folders)| == |r.folders| && |multiset(MovedFolders(t.folders, m))| == |t.folders|;
    hide After;
    hide Carried;
    hide MovedFolder;
    hide MovedFolders;
    hide Plain;
    hide Shown;
    hide HasPath;
    hide Final;
    hide Clear;
    hide Housed;
    hide Display;
    hide Normalize;
    hide Sort;
    forall f <- t.folders
      ensures exists g <- r.folders :: Carried(f, g, m)
    {
      MovedCarried(f, m);
      MovedTo(t.folders, m, f);
      InAfter(t, m, MovedFolder(f, m));
    }
    forall g <- r.folders
      ensures exists f <- t.folders :: Carried(f, g, m)
    {
      InAfter(t, m, g);
      var k := MovedIn(t.folders, m, g);
      MovedCarried(t.folders[k], m);
    }
  }

  lemma RequestsCarry(t: Tree, m: Move)
    requires Inv(t) && Proper(t.folders, m) && Plain(Final(m))
    ensures RequestsCarried(t.requests, After(t, m).requests, m)
  {
    var r := After(t, m);
    assert r.requests == MovedRequests(t.requests, m);
    hide After;
    hide Plain;
    hide Final;
    hide Replace;
    hide Normalize;
    hide Display;
    hide Unique;
    hide Rooted;
    hide HasDisplay;
    forall i | 0 <= i < |t.requests|
      ensures RequestCarried(t.requests[i], r.requests[i], m)
    {
      var q := t.requests[i];
      assert q in t.requests && r.requests[i] == MovedRequest(q, m);
      HousedKey(t, q);
      MovedKey(q, m);
    }
  }

  lemma HousedKey(t: Tree, q: Request)
    requires Inv(t) && q in t.requests
    ensures Normalize(q.folder) == [] || Plain(Normalize(q.folder))
  {
    if Normalize(q.folder) != [] {
      var f :| f in t.folders && Display(f) == Normalize(q.folder);
      ShownDisplay(f);
    }
    hide Normalize;
    hide Plain;
  }

  lemma GoodKey(f: Folder, name: string, directory: Segment)
    requires Plain(f.path) && Shown(f) && GoodPieces(name)
    ensures var m, key := Keys(MoveOf(f, name, directory)), Parent(Display(f)) + NonEmpty(Pieces(name));
            m.newDisplay == key && Final(m) == key && Normalize(m.newDisplay) == key && Plain(key)
  {
    ShownDisplay(f);
    ParentOfPlain(Display(f));
    GoodName(Parent(Display(f)), Pieces(name));
    NormalizePlain(Parent(Display(f)) + NonEmpty(Pieces(name)));
    hide Normalize;
    hide JoinPath;
    hide ParentPath;
    hide Display;
    hide NonEmpty;
    hide Pieces;
    hide Plain;
  }

  lemma BaseOfJoin(p: Path, q: Path)
    requires q != []
    ensures Base(p + q) == Base(q)
  {
    assert (p + q)[|p + q| - 1] == q[|q| - 1];
  }

  /** A name made of names puts the folder beside where it was displayed, under its pieces,
      and names it by the last of them. */
  lemma GivenName(t: Tree, folder: Path, name: string, directory: Segment, disk: bool)
    requires Inv(t) && RenameRefusal(t, folder, name, directory, disk).None? && GoodPieces(Trim(name))
    ensures FindFolder(t.folders, Normalize(folder)) < |t.folders|
    ensures var m := MoveFor(t, folder, name, directory);
            && Final(m) == Parent(m.oldDisplay) + NonEmpty(Pieces(Trim(name))) && Plain(Final(m))
            && Base(Normalize(m.newDisplay)) == Base(Final(m)) == Base(NonEmpty(Pieces(Trim(name))))
  {
    var f := MoveGiven(t, folder, name, directory, disk);
    GoodKey(f, Trim(name), directory);
    hide RenameRefusal;
    hide Normalize;
    hide MoveOf;
    hide Keys;
    hide Display;
    hide NonEmpty;
    hide Pieces;
    hide Plain;
    hide Base;
    hide Final;
    hide Proper;
    BaseOfJoin(Parent(Display(f)), NonEmpty(Pieces(Trim(name))));
  }

  // --- a creation in full ------------------------------------------------------------------------

  /** An accepted creation adds one folder and changes nothing else. */
  lemma CreateEffect(t: Tree, parent: Path, name: string, directory: Segment, answers: Answers) returns (f: Folder)
    requires Inv(t) && CreateRefusal(t, parent, name, directory, answers.disk).None? && GoodPieces(Trim(name))
    ensures var r := Create(t, parent, name, directory, answers).tree;
            multiset(r.folders) == multiset(t.folders) + multiset{f} && r.requests == t.requests
    ensures ParentPaths(t.folders, parent).Some?
    ensures var home := ParentPaths(t.folders, parent).value;
            && f.path == home.0 + [directory] && Display(f) == home.1 + NonEmpty(Pieces(Trim(name)))
            && f.name == Trim(name) && f.seqNo == CountChildren(t, home.0) + 1
  {
    CreateAccepted(t, parent, name, directory, answers.disk);
    CreatedAs(t, parent, name, directory, answers);
    var home := ParentPaths(t.folders, parent).value;
    f := NewFolder(t, home.0, home.1, Trim(name), directory);
    SortPermutes(FolderLeq, t.folders + [f]);
    GoodCreate(t, parent, Trim(name), directory);
    HomePlain(t, parent, Trim(name), directory);
    JoinOne(home.0, directory);
    GoodName(home.1, Pieces(Trim(name)));
    ShownDisplay(f);
    hide Create;
    hide CreateRefusal;
    hide Sort;
    hide Normalize;
    hide Display;
    hide Plain;
    hide CountChildren;
    hide ParentPaths;
    hide NonEmpty;
    hide HasChild;
    hide GoodPieces;
    hide Inv;
    hide JoinPath;
    assert f.displayPath == JoinPath(home.1, Pieces(Trim(name)));
  }

  lemma HomePlain(t: Tree, parent: Path, name: string, directory: Segment)
    requires Inv(t) && ParentPaths(t.folders, parent).Some?
    requires !HasChild(t.folders, ParentPaths(t.folders, parent).value.0, directory)
    ensures var home := ParentPaths(t.folders, parent).value;
            (home.0 == [] || Plain(home.0)) && (home.1 == [] || Plain(home.1))
  {
    var i := Placed(t, parent, name, directory);
    var home := ParentPaths(t.folders, parent).value;
    hide ParentPaths;
    hide HasChild;
    hide NewFolder;
    hide Plain;
    if home.0 != [] {
      ShownDisplay(t.folders[i]);
      assert Plain(t.folders[i].path);
    }
  }

  /** The children of a folder: none in an empty collection, and one more for each folder
      right inside and each request displayed there. */
  lemma CountGrows(t: Tree, f: Folder, r: Request, parent: Path)
    ensures CountChildren(Tree([], []), parent) == 0
    ensures CountChildren(Tree(t.folders + [f], t.requests), parent)
            == CountChildren(t, parent) + if ParentPath(f.path) == Normalize(parent) then 1 else 0
    ensures CountChildren(Tree(t.folders, t.requests + [r]), parent)
            == CountChildren(t, parent) + if Normalize(r.folder) == Normalize(parent) then 1 else 0
  {
    hide Normalize;
    hide ParentPath;
    FoldersCounted(t.folders, f, Normalize(parent));
    RequestsCounted(t.requests, r, Normalize(parent));
  }

  lemma FoldersCounted(folders: seq<Folder>, f: Folder, key: Path)
    ensures var fs := folders + [f];
            |set i | 0 <= i < |fs| && ParentPath(fs[i].path) == key|
            == |set i | 0 <= i < |folders| && ParentPath(folders[i].path) == key| + if ParentPath(f.path) == key then 1 else 0
  {
    hide ParentPath;
    var fs := folders + [f];
    assert (set i | 0 <= i < |fs| && ParentPath(fs[i].path) == key)
        == (set i | 0 <= i < |folders| && ParentPath(folders[i].path) == key) + if ParentPath(f.path) == key then {|folders|} else {};
  }

  lemma RequestsCounted(requests: seq<Request>, r: Request, key: Path)
    ensures var rs := requests + [r];
            |set i | 0 <= i < |rs| && Normalize(rs[i].folder) == key|
            == |set i | 0 <= i < |requests| && Normalize(requests[i].folder) == key| + if Normalize(r.folder) == key then 1 else 0
  {
    hide Normalize;
    var rs := requests + [r];
    assert (set i | 0 <= i < |rs| && Normalize(rs[i].folder) == key)
        == (set i | 0 <= i < |requests| && Normalize(requests[i].folder) == key) + if Normalize(r.folder) == key then {|requests|} else {};
  }

  // --- a deletion in full ------------------------------------------------------------------------

  /** An accepted deletion takes the folder, what lies below it in either way, and the
      requests of either; nothing else. */
  lemma DeleteEffect(t: Tree, folder: Path, answers: Answers, f: Folder, r: Request)
    requires Inv(t) && DeleteRefusal(t, folder, answers.disk).None?
    ensures FindFolder(t.folders, Normalize(folder)) < |t.folders|
    ensures var gone, after := t.folders[FindFolder(t.folders, Normalize(folder))], Delete(t, folder, answers).tree;
            && (f in after.folders <==> f in t.folders && !Below(f.path, gone.path) && !Below(Display(f), Display(gone)))
            && (r in after.requests <==>
                && r in t.requests && !Below(Normalize(r.folder), Display(gone)) && !Below(Normalize(r.folder), gone.path)
                && !Below(r.file, gone.path))
  {
    var gone := t.folders[FindFolder(t.folders, Normalize(folder))];
    GoneFolder(t, folder, gone);
    KeptRequestsAre(t.requests, Normalize(gone.path), Display(gone));
    assert Delete(t, folder, answers).tree == Deleted(t, gone);
    hide Delete;
    hide Normalize;
    hide Display;
    hide KeptFolders;
    hide KeptRequests;
    hide Sort;
    hide RequestGoes;
    hide Plain;
    hide Shown;
    if r in t.requests {
      HousedKey(t, r);
      RequestBelow(r, gone);
    }
  }

  // --- what the operations answer ----------------------------------------------------------------

  /** Some folder has the path, or is displayed there. */
  ghost predicate Known(folders: seq<Folder>, key: Path) {
    exists f <- folders :: f.path == key || Display(f) == key
  }

  /** Which is when the search finds one. */
  lemma FoundIs(folders: seq<Folder>, key: Path)
    requires Rooted(folders) && Coherent(folders)
    ensures FindFolder(folders, key) < |folders| <==> Known(folders, key)
  {
    hide Normalize;
    hide Display;
    hide HasPath;
    forall f <- folders
      ensures Found(f, key) <==> f.path == key || Display(f) == key
    {
      NormalizePlain(f.path);
      ShownDisplay(f);
    }
    hide Plain;
    hide Shown;
    var i := FindFolder(folders, key);
    if f :| f in folders && Found(f, key) {
      var j :| 0 <= j < |folders| && folders[j] == f;
    }
  }

  lemma DuplicateIs(folders: seq<Folder>, parent: Path, directory: Segment)
    requires Rooted(folders) && (parent == [] || Plain(parent))
    ensures HasChild(folders, parent, directory) <==> HasPath(folders, parent + [directory])
  {
    NormalizePlain(parent);
    hide Normalize;
    if HasPath(folders, parent + [directory]) {
      var f :| f in folders && f.path == parent + [directory];
      ChildIsNamed(f, parent, directory);
    }
    if HasChild(folders, parent, directory) {
      var f :| f in folders && ChildNamed(f, parent, directory);
      NamedIsChild(f, parent, directory);
    }
  }

  lemma NamedIsChild(f: Folder, parent: Path, directory: Segment)
    requires Plain(f.path) && ChildNamed(f, parent, directory)
    ensures f.path == parent + [directory]
  {
    NormalizePlain(f.path);
    ParentOfPlain(f.path);
    BasePlain(f.path);
    TrimIsTrimmed(directory);
    hide Normalize;
    hide ParentPath;
    hide Plain;
  }

  /** The errors of a creation, the first that applies: no name, no parent folder, the
      directory of the environments, a directory that is taken, the disk, the marking. */
  lemma CreateAnswer(t: Tree, parent: Path, name: string, directory: Segment, answers: Answers)
    requires Inv(t)
    ensures var key, error := Normalize(parent), Create(t, parent, name, directory, answers).error;
            var i := FindFolder(t.folders, key);
            if Trim(name) == [] then error == Some(NameRequired)
            else if key != [] && i == |t.folders| then error == Some(NotFound)
            else if key == [] && Lower(directory) == "environments" then error == Some(Reserved)
            else if HasPath(t.folders, (if key == [] then [] else t.folders[i].path) + [directory]) then error == Some(Duplicate)
            else error == if !answers.disk then Some(Disk) else if !answers.saved then Some(Unsaved) else None
  {
    hide Inv;
    hide HasChild;
    hide Display;
    hide Normalize;
    hide HasPath;
    hide Trim;
    hide Lower;
    hide Known;
    hide CreateRefusal;
    hide Create;
    hide FindFolder;
    CreateError(t, parent, name, directory, answers);
    CreateRefused(t, parent, name, directory, answers.disk);
  }

  lemma CreateError(t: Tree, parent: Path, name: string, directory: Segment, answers: Answers)
    ensures var refusal := CreateRefusal(t, parent, name, directory, answers.disk);
            Create(t, parent, name, directory, answers).error
            == if refusal.Some? then refusal else if answers.saved then None else Some(Unsaved)
  {
    hide CreateRefusal;
    hide NewFolder;
    hide Sort;
    if CreateRefusal(t, parent, name, directory, answers.disk).None? {
      CreateAccepted(t, parent, name, directory, answers.disk);
    }
    hide ParentPaths;
  }

  /** Where a parent's new directories go, and whether one is there. */
  lemma HomeIs(t: Tree, key: Path, directory: Segment)
    requires Inv(t)
    ensures var i := FindFolder(t.folders, key);
            && (i < |t.folders| <==> Known(t.folders, key))
            && (key == [] ==> (HasChild(t.folders, [], directory) <==> HasPath(t.folders, [] + [directory])))
            && (i < |t.folders| ==>
                  var home := t.folders[i].path;
                  && home != [] && Normalize(home) == home
                  && (HasChild(t.folders, home, directory) <==> HasPath(t.folders, home + [directory])))
  {
    var i := FindFolder(t.folders, key);
    FoundIs(t.folders, key);
    DuplicateIs(t.folders, [], directory);
    hide FindFolder;
    hide HasChild;
    hide Normalize;
    hide Display;
    hide Coherent;
    hide Housed;
    if i < |t.folders| {
      assert t.folders[i] in t.folders;
      PlainNotEmpty(t.folders[i].path);
      NormalizePlain(t.folders[i].path);
      hide Plain;
      DuplicateIs(t.folders, t.folders[i].path, directory);
    }
  }

  lemma CreateRefused(t: Tree, parent: Path, name: string, directory: Segment, disk: bool)
    requires Inv(t)
    ensures var key, error := Normalize(parent), CreateRefusal(t, parent, name, directory, disk);
            var i := FindFolder(t.folders, key);
            if Trim(name) == [] then error == Some(NameRequired)
            else if key != [] && i == |t.folders| then error == Some(NotFound)
            else if key == [] && Lower(directory) == "environments" then error == Some(Reserved)
            else if HasPath(t.folders, (if key == [] then [] else t.folders[i].path) + [directory]) then error == Some(Duplicate)
            else error == if disk then None else Some(Disk)
  {
    hide Inv;
    hide HasChild;
    hide Display;
    hide Normalize;
    hide HasPath;
    hide Lower;
    hide Known;
    hide FindFolder;
    TrimIsTrimmed(directory);
    hide Trim;
    HomeIs(t, Normalize(parent), directory);
  }

  /** The errors of a rename, the first that applies: no name or one of more than 255, no
      such folder, one of the two directory names that mean something else, a directory that
      is taken by another folder, the disk, the marking. */
  lemma RenameAnswer(t: Tree, folder: Path, name: string, directory: Segment, answers: Answers)
    requires Inv(t)
    ensures var key, error := Normalize(folder), Rename(t, folder, name, directory, answers).error;
            var i := FindFolder(t.folders, key);
            if Trim(name) == [] then error == Some(NameRequired)
            else if |Trim(name)| > 255 then error == Some(NameTooLong)
            else if key == [] || i == |t.folders| then error == Some(NotFound)
            else if Lower(directory) == "collection" || Lower(directory) == "folder" then error == Some(Reserved)
            else if Base(t.folders[i].path) != directory && HasPath(t.folders, Parent(t.folders[i].path) + [directory])
            then error == Some(Duplicate)
            else error == if !answers.disk then Some(Disk) else if !answers.saved then Some(Unsaved) else None
  {
    hide Inv;
    hide HasChild;
    hide Display;
    hide Normalize;
    hide HasPath;
    hide Trim;
    hide Lower;
    hide Known;
    hide RenameRefusal;
    hide Rename;
    hide FindFolder;
    hide Base;
    hide Parent;
    AnyRenameError(t, folder, name, directory, answers);
    RenameRefused(t, folder, name, directory, answers.disk);
  }

  lemma AnyRenameError(t: Tree, folder: Path, name: string, directory: Segment, answers: Answers)
    ensures var refusal := RenameRefusal(t, folder, name, directory, answers.disk);
            Rename(t, folder, name, directory, answers).error
            == if refusal.Some? then refusal else if answers.saved then None else Some(Unsaved)
  {
    hide RenameRefusal;
    hide Renamed;
    hide MoveOf;
    hide Normalize;
    if RenameRefusal(t, folder, name, directory, answers.disk).None? {
      RenameAccepted(t, folder, name, directory, answers.disk);
    }
    hide FindFolder;
  }

  lemma RenameRefused(t: Tree, folder: Path, name: string, directory: Segment, disk: bool)
    requires Inv(t)
    ensures var key, error := Normalize(folder), RenameRefusal(t, folder, name, directory, disk);
            var i := FindFolder(t.folders, key);
            if Trim(name) == [] then error == Some(NameRequired)
            else if |Trim(name)| > 255 then error == Some(NameTooLong)
            else if key == [] || i == |t.folders| then error == Some(NotFound)
            else if Lower(directory) == "collection" || Lower(directory) == "folder" then error == Some(Reserved)
            else if Base(t.folders[i].path) != directory && HasPath(t.folders, Parent(t.folders[i].path) + [directory])
            then error == Some(Duplicate)
            else error == if disk then None else Some(Disk)
  {
    hide HasChild;
    hide Display;
    hide Normalize;
    hide HasPath;
    hide Lower;
    hide Known;
    hide FindFolder;
    hide Trim;
    hide MoveOf;
    hide Base;
    hide Parent;
    hide ParentPath;
    hide Coherent;
    hide Housed;
    hide Unique;
    var i := FindFolder(t.folders, Normalize(folder));
    HomeIs(t, Normalize(folder), directory);
    if i < |t.folders| {
      assert t.folders[i] in t.folders;
      MoveOfFound(t.folders[i], Trim(name), directory);
      DuplicateIs(t.folders, Parent(t.folders[i].path), directory);
    }
    hide Plain;
  }

  lemma MoveOfFound(f: Folder, name: string, directory: Segment)
    requires Plain(f.path)
    ensures var m := MoveOf(f, name, directory);
            && Normalize(f.path) == f.path == m.oldPath && ParentPath(m.oldPath) == Parent(f.path)
            && (Parent(f.path) == [] || Plain(Parent(f.path)))
            && (m.newPath != m.oldPath <==> Base(f.path) != directory)
  {
    NormalizePlain(f.path);
    ParentOfPlain(f.path);
    JoinOne(Parent(f.path), directory);
    BasePlain(f.path);
    assert Base(Parent(f.path) + [directory]) == directory;
    hide Normalize;
    hide ParentPath;
    hide JoinPath;
    hide Display;
    hide Plain;
  }

  /** The errors of a deletion: no such folder, the disk before, the removal, the
      renumbering of the siblings and the marking after. */
  lemma DeleteAnswer(t: Tree, folder: Path, answers: Answers)
    requires Inv(t)
    ensures var key, error := Normalize(folder), Delete(t, folder, answers).error;
            if key == [] || !Known(t.folders, key) then error == Some(NotFound)
            else if !answers.disk || !answers.removed then error == Some(Disk)
            else error == if !answers.renumbered then Some(Unnumbered) else if !answers.saved then Some(Unsaved) else None
  {
    var key := Normalize(folder);
    var i := FindFolder(t.folders, key);
    FoundIs(t.folders, key);
    if i < |t.folders| {
      assert t.folders[i] in t.folders;
      NormalizePlain(t.folders[i].path);
      PlainNotEmpty(t.folders[i].path);
    }
    hide Inv;
    hide Display;
    hide Normalize;
    hide Known;
    hide Deleted;
    hide Plain;
  }

  // --- the order of the list ---------------------------------------------------------------------

  /** What a folder without a name is listed by. */
  function Caption(f: Folder): string {
    if Trim(f.name) != [] then f.name else if !Blank(f.displayPath) then Join(f.displayPath, "/") else Join(f.path, "/")
  }

  /** Numbered folders come before the others, by number; the rest goes by name. */
  predicate Listed(a: Folder, b: Folder) {
    if a.seqNo > 0 && b.seqNo > 0 && a.seqNo != b.seqNo then a.seqNo < b.seqNo
    else if a.seqNo > 0 && b.seqNo <= 0 then true
    else if a.seqNo <= 0 && b.seqNo > 0 then false
    else StringLeq(Lower(Caption(a)), Lower(Caption(b)))
  }

  lemma SortLists(folders: seq<Folder>)
    ensures var s := Sort(folders); forall i, j :: 0 <= i < j < |s| ==> Listed(s[i], s[j])
  {
    KeyOrder();
    assert forall x, y :: FolderLeq(x, y) == Listed(x, y);
    assert TotalPreorder(FolderLeq);
    SortSorted(FolderLeq, folders);
  }

  /** Every operation that passes its checks leaves the folders listed in that order. */
  lemma ListedAfter(t: Tree, op: Op, i: nat, j: nat)
    requires Refusal(t, op).None? && i < j < |Outcome(t, op).tree.folders|
    ensures Listed(Outcome(t, op).tree.folders[i], Outcome(t, op).tree.folders[j])
  {
    hide Listed;
    match op
    case CreateFolder(parent, name, directory, answers) =>
      CreatedAs(t, parent, name, directory, answers);
      var home := ParentPaths(t.folders, parent).value;
      SortLists(t.folders + [NewFolder(t, home.0, home.1, Trim(name), directory)]);
      hide Create;
    case RenameFolder(folder, name, directory, answers) =>
      RenamedIsAfter(t, folder, name, directory, answers);
      SortLists(MovedFolders(t.folders, MoveFor(t, folder, name, directory)));
      hide Rename;
    case DeleteFolder(folder, answers) =>
      var gone := t.folders[FindFolder(t.folders, Normalize(folder))];
      SortLists(KeptFolders(t.folders, Normalize(gone.path), Display(gone)));
  }

  // --- the names of folders --------------------------------------------------------------------

  /** Every folder is called by the last piece of where it is displayed. */
  ghost predicate Named(folders: seq<Folder>) {
    forall f <- folders :: f.name == Base(Display(f))
  }

  /** The name given is one name, without slashes. */
  predicate OnePiece(op: Op) {
    match op
    case CreateFolder(_, name, _, _) => IsSegment(Trim(name))
    case RenameFolder(_, name, _, _) => IsSegment(Trim(name))
    case DeleteFolder(_, _) => true
  }

  lemma OneIsGood(s: string)
    requires IsSegment(s)
    ensures GoodPieces(s) && NonEmpty(Pieces(s)) == [s]
  {
    SplitOne(s, '/');
    assert [s][..0] == [] && NonEmpty([]) == [];
    hide Split;
  }

  lemma OneIsNameable(op: Op)
    requires OnePiece(op)
    ensures Nameable(op)
  {
    hide GoodPieces;
    if !op.DeleteFolder? {
      OneIsGood(Trim(op.name));
    }
  }

  lemma BaseReplaced(p: Path, oldTop: Path, newTop: Path)
    requires oldTop != []
    ensures Base(Replace(p, oldTop, newTop)) == if p == oldTop then Base(newTop) else Base(p)
  {
    if oldTop <= p {
      var q := newTop + p[|oldTop|..];
      if p == oldTop {
        assert q == newTop;
      } else {
        assert q[|q| - 1] == p[|p| - 1];
      }
    }
  }

  /** Another folder is displayed where the renamed one was, and the new name is a new one. */
  ghost predicate Shadowed(folders: seq<Folder>, m: Move) {
    Base(Final(m)) != Base(m.oldDisplay) && exists f <- folders :: Display(f) == m.oldDisplay && f.path != m.oldPath
  }

  lemma CarriedName(f: Folder, g: Folder, m: Move)
    requires Carried(f, g, m) && f.name == Base(Display(f)) && m.oldDisplay != []
    requires Base(Normalize(m.newDisplay)) == Base(Final(m)) && (f.path == m.oldPath ==> Display(f) == m.oldDisplay)
    ensures g.name == Base(Display(g)) <==>
            f.path == m.oldPath || Display(f) != m.oldDisplay || Base(Final(m)) == Base(m.oldDisplay)
  {
    BaseReplaced(Display(f), m.oldDisplay, Final(m));
    hide Display;
    hide Final;
    hide Replace;
    hide Normalize;
  }

  /** A rename to a name of one piece keeps every folder called by where it is displayed
      exactly when it leaves no other folder of the old display path behind with the old name. */
  lemma RenameNames(t: Tree, folder: Path, name: string, directory: Segment, answers: Answers)
    requires Inv(t) && Named(t.folders) && IsSegment(Trim(name))
    requires RenameRefusal(t, folder, name, directory, answers.disk).None?
    ensures FindFolder(t.folders, Normalize(folder)) < |t.folders|
    ensures Named(Rename(t, folder, name, directory, answers).tree.folders) <==>
            !Shadowed(t.folders, MoveFor(t, folder, name, directory))
  {
    hide Sound;
    hide RenameRefusal;
    hide Rename;
    hide MoveFor;
    hide Normalize;
    hide Display;
    hide Final;
    hide AllCarried;
    hide NoOthers;
    hide RequestsCarried;
    hide Named;
    hide Shadowed;
    hide Plain;
    hide Trim;
    hide Rooted;
    hide Coherent;
    hide Housed;
    hide Pieces;
    hide GoodPieces;
    hide NonEmpty;
    hide Parent;
    hide HasPath;
    hide Distinct;
    hide Base;
    hide FindFolder;
    OneIsGood(Trim(name));
    NameableIsSound(t, RenameFolder(folder, name, directory, answers));
    RenameEffect(t, folder, name, directory, answers);
    GivenName(t, folder, name, directory, answers.disk);
    var h := MoveGiven(t, folder, name, directory, answers.disk);
    var m := MoveFor(t, folder, name, directory);
    PlainNotEmpty(m.oldDisplay);
    hide Proper;
    NamesCarried(t.folders, Rename(t, folder, name, directory, answers).tree.folders, h, m);
  }

  lemma NamesCarried(folders: seq<Folder>, moved: seq<Folder>, h: Folder, m: Move)
    requires Unique(folders) && Named(folders) && h in folders && m.oldPath == h.path && m.oldDisplay == Display(h)
    requires m.oldDisplay != [] && Base(Normalize(m.newDisplay)) == Base(Final(m))
    requires AllCarried(folders, moved, m) && NoOthers(folders, moved, m)
    ensures Named(moved) <==> !Shadowed(folders, m)
  {
    hide AllCarried;
    hide NoOthers;
    hide Shadowed;
    hide Display;
    hide Final;
    hide Base;
    hide Normalize;
    hide Distinct;
    assert Before(folders, m);
    hide Before;
    hide Named;
    if Shadowed(folders, m) {
      ShadowSeen(folders, moved, m);
    } else {
      NoShadowSeen(folders, moved, m);
    }
  }

  /** What a rename to a name of one piece starts from. */
  ghost predicate Before(folders: seq<Folder>, m: Move) {
    && m.oldDisplay != [] && Base(Normalize(m.newDisplay)) == Base(Final(m))
    && forall f <- folders :: f.name == Base(Display(f)) && (f.path == m.oldPath ==> Display(f) == m.oldDisplay)
  }

  lemma ShadowSeen(folders: seq<Folder>, moved: seq<Folder>, m: Move)
    requires Before(folders, m) && AllCarried(folders, moved, m) && Shadowed(folders, m)
    ensures !Named(moved)
  {
    hide Carried;
    hide Display;
    hide Final;
    hide Base;
    hide Normalize;
    var f :| f in folders && Display(f) == m.oldDisplay && f.path != m.oldPath;
    var g :| g in moved && Carried(f, g, m);
    CarriedName(f, g, m);
  }

  lemma NoShadowSeen(folders: seq<Folder>, moved: seq<Folder>, m: Move)
    requires Before(folders, m) && NoOthers(folders, moved, m) && !Shadowed(folders, m)
    ensures Named(moved)
  {
    hide Carried;
    hide Display;
    hide Final;
    hide Base;
    hide Normalize;
    forall g <- moved
      ensures g.name == Base(Display(g))
    {
      var f :| f in folders && Carried(f, g, m);
      CarriedName(f, g, m);
    }
  }

  lemma CreateNames(t: Tree, parent: Path, name: string, directory: Segment, answers: Answers)
    requires Inv(t) && Named(t.folders) && IsSegment(Trim(name))
    ensures Named(Create(t, parent, name, directory, answers).tree.folders)
  {
    hide CreateRefusal;
    if CreateRefusal(t, parent, name, directory, answers.disk).None? {
      OneIsGood(Trim(name));
      var f := CreateEffect(t, parent, name, directory, answers);
      hide Create;
      hide Display;
      hide Trim;
      hide NonEmpty;
      hide Pieces;
      hide ParentPaths;
      forall g <- Create(t, parent, name, directory, answers).tree.folders
        ensures g.name == Base(Display(g))
      {
        assert g in multiset(Create(t, parent, name, directory, answers).tree.folders);
      }
    }
  }

  lemma DeleteNames(t: Tree, folder: Path, answers: Answers)
    requires Inv(t) && Named(t.folders)
    ensures Named(Delete(t, folder, answers).tree.folders)
  {
    if Deletable(t, folder) && answers.disk {
      GoneFolder(t, folder, t.folders[FindFolder(t.folders, Normalize(folder))]);
      hide Deleted;
      hide Display;
      hide Normalize;
    }
  }

  /** One operation with a name of one piece. */
  lemma StepNames(t: Tree, op: Op)
    requires Inv(t) && Named(t.folders) && OnePiece(op) && Apart(t.folders)
    ensures Named(Outcome(t, op).tree.folders)
  {
    hide Named;
    hide Inv;
    match op
    case CreateFolder(parent, name, directory, answers) =>
      CreateNames(t, parent, name, directory, answers);
    case RenameFolder(folder, name, directory, answers) =>
      ApartRenames(t, folder, name, directory, answers);
    case DeleteFolder(folder, answers) =>
      DeleteNames(t, folder, answers);
  }

  lemma ApartRenames(t: Tree, folder: Path, name: string, directory: Segment, answers: Answers)
    requires Inv(t) && Named(t.folders) && IsSegment(Trim(name)) && Apart(t.folders)
    ensures Named(Rename(t, folder, name, directory, answers).tree.folders)
  {
    hide RenameRefusal;
    if RenameRefusal(t, folder, name, directory, answers.disk).None? {
      RenameNames(t, folder, name, directory, answers);
      var h := MoveGiven(t, folder, name, directory, answers.disk);
      hide Inv;
      hide Named;
      hide Rename;
      hide MoveFor;
      hide Display;
      hide Proper;
      hide Final;
      hide Normalize;
      assert h in t.folders;
    }
  }

  /** Over every run of names of one piece in which no two folders come to share a display
      path, every folder is called by the last piece of where it is displayed. */
  lemma {:induction false} RunNames(t: Tree, ops: seq<Op>)
    requires Inv(t) && Named(t.folders) && forall op <- ops :: OnePiece(op)
    requires forall k :: 0 <= k < |ops| ==> Apart(Run(t, ops[..k]).folders)
    ensures Named(Run(t, ops).folders)
  {
    hide Inv;
    hide Named;
    hide Apart;
    hide OnePiece;
    if ops != [] {
      var n := |ops| - 1;
      assert ops[n] in ops && forall op <- ops[..n] :: op in ops;
      assert forall k :: 0 <= k < n ==> ops[..n][..k] == ops[..k];
      RunNames(t, ops[..n]);
      OnePiecesKeep(t, ops[..n]);
      hide Outcome;
      StepNames(Run(t, ops[..n]), ops[n]);
    }
  }

  lemma OnePiecesKeep(t: Tree, ops: seq<Op>)
    requires Inv(t) && forall op <- ops :: OnePiece(op)
    ensures Inv(Run(t, ops))
  {
    hide Inv;
    hide OnePiece;
    hide Nameable;
    hide Run;
    forall op <- ops
      ensures Nameable(op)
    {
      OneIsNameable(op);
    }
    RunKeepsTree(t, ops);
  }

  // --- a name that is not the last piece ---------------------------------------------------------

  predicate AllBlank(ss: Path) {
    forall i :: 0 <= i < |ss| ==> ss[i] == " "
  }

  lemma {:induction false} CleanBlanks(x: Segment, ss: Path)
    requires AllBlank(ss)
    ensures Clean([x] + ss) == [x] + ss
    decreases |ss|
  {
    if ss == [] {
      CleanSnoc([], x);
      assert [x] + ss == [x] && [] + [x] == [x];
    } else {
      var n := |ss| - 1;
      CleanBlanks(x, ss[..n]);
      CleanBlank([x] + ss[..n]);
      hide Clean;
      hide IsSegment;
      assert [x] + ss == ([x] + ss[..n]) + [" "];
    }
  }

  lemma CleanBlank(p: Path)
    ensures Clean(p + [" "]) == Clean(p) + [" "]
  {
    assert (p + [" "])[..|p|] == p;
  }

  lemma StripLast(p: Path)
    requires p != [] && p[0] != [] && p[|p| - 1] != []
    ensures StripSlashes(p + [[]]) == p
  {
    var q := p + [[]];
    assert DropFront(q) == q;
    assert q[..|p|] == p;
    assert DropBack(q) == DropBack(p) == p;
  }

  /** Normalising takes one blank piece off the end each time. */
  lemma OneBlankLess(x: Segment, ss: Path)
    requires AllBlank(ss)
    ensures Normalize([x] + ss + [" "]) == [x] + ss
  {
    var p := [x] + ss + [" "];
    assert TrimLeft(x) == x && TrimRight(" ") == [];
    assert TrimEnds(p) == [x] + ss + [[]];
    var q := [x] + ss;
    assert q[|ss|] == if ss == [] then x else ss[|ss| - 1];
    StripLast(q);
    CleanBlanks(x, ss);
    hide TrimEnds;
    hide StripSlashes;
    hide Clean;
    hide IsSegment;
  }

  lemma SlashBehind(x: string, tail: string, rest: string)
    requires '/' !in x && tail == ['/'] + rest
    ensures Split(x + tail, '/') == [x] + Split(rest, '/')
  {
    hide Split;
    SplitCons(x, '/', rest);
    assert x + ['/'] + rest == x + (['/'] + rest);
  }

  lemma NoSlash(x: Segment)
    ensures '/' !in x
  {
  }

  lemma BlankEnds(x: Segment)
    ensures Split(x + "/ / / /", '/') == [x, " ", " ", " ", ""]
  {
    hide Split;
    hide IsSegment;
    NoSlash(x);
    ThreeBlanks();
    SlashBehind(x, "/ / / /", " / / /");
  }

  lemma ThreeBlanks()
    ensures Split(" / / /", '/') == [" ", " ", " ", ""]
  {
    hide Split;
    SplitOne("", '/');
    BlankFirst("");
    BlankFirst(" /");
    BlankFirst(" / /");
    assert " /" + "" == " /" && " /" + " /" == " / /" && " /" + " / /" == " / / /";
  }

  lemma BlankFirst(rest: string)
    ensures Split(" /" + rest, '/') == [" "] + Split(rest, '/')
  {
    SplitCons(" ", '/', rest);
    hide Split;
    assert " " + ['/'] + rest == " /" + rest;
  }

  lemma BlankPieces(x: Segment)
    ensures var name := x + "/ / / /";
            Trim(name) == name && JoinPath([], Pieces(name)) == [x, " ", " ", " "]
  {
    var name := x + "/ / / /";
    assert name[0] == x[0] && name[|name| - 1] == '/';
    TrimIsTrimmed(name);
    BlankEnds(x);
    StripLast([x, " ", " ", " "]);
    NormalizePlain([]);
    hide Trim;
    hide Split;
    hide StripSlashes;
    hide Normalize;
    assert [x, " ", " ", " "] + [[]] == [x, " ", " ", " ", ""];
  }

  /** So a name with three blank pieces behind it ends up without them only after three rounds. */
  lemma BlankKeys(x: Segment)
    ensures Normalize([x, " ", " ", " "]) == [x, " ", " "] && Normalize([x, " ", " "]) == [x, " "] && Normalize([x, " "]) == [x]
  {
    OneBlankLess(x, [" ", " "]);
    OneBlankLess(x, [" "]);
    OneBlankLess(x, []);
    assert [x] + [" ", " "] + [" "] == [x, " ", " ", " "] && [x] + [" ", " "] == [x, " ", " "];
    assert [x] + [" "] + [" "] == [x, " ", " "] && [x] + [" "] == [x, " "];
    assert [x] + [] + [" "] == [x, " "] && [x] + [] == [x];
    hide Normalize;
  }

  lemma BlankMove(a: Segment, x: Segment, d: Segment)
    requires Allowed(x + "/ / / /", d) && d != a
    ensures var t := Tree([Folder([a], [a], a, 1)], []);
            && FindFolder(t.folders, Normalize([a])) == 0
            && var m := MoveFor(t, [a], x + "/ / / /", d);
            && m.oldPath == [a] && m.newPath == [d] && m.oldDisplay == [a] && Final(m) == [x]
            && Base(Normalize(m.newDisplay)) == " "
  {
    var f, name := Folder([a], [a], a, 1), x + "/ / / /";
    var t := Tree([f], []);
    OneFolder(a);
    OneRenamed(a, name, d);
    BlankPieces(x);
    hide RenameRefusal;
    hide Inv;
    hide Normalize;
    hide JoinPath;
    hide Pieces;
    hide Display;
    hide HasChild;
    hide Trim;
    hide Allowed;
    hide Proper;
    hide FindFolder;
    hide IsSegment;
    hide ParentPath;
    var h := MoveGiven(t, [a], name, d, true);
    ParentOfKey(a);
    BlankKeys(x);
    hide Keys;
    BlankDisplay(f, x, d);
    assert Parent([a]) + [d] == [d];
    assert h == f;
  }

  lemma BlankDisplay(f: Folder, x: Segment, d: Segment)
    requires Display(f) == [f.name] && ParentPath([f.name]) == [] && Normalize([f.name]) == [f.name]
    requires JoinPath([], Pieces(x + "/ / / /")) == [x, " ", " ", " "]
    requires Normalize([x, " ", " ", " "]) == [x, " ", " "]
    ensures Keys(MoveOf(f, x + "/ / / /", d)).newDisplay == [x, " ", " "]
  {
    hide Normalize;
    hide ParentPath;
    hide JoinPath;
    hide Pieces;
    hide Display;
  }

  lemma ParentOfKey(a: Segment)
    ensures ParentPath(Normalize([a])) == [] && Normalize([a]) == [a]
  {
    NormalizePlain([a]);
    ParentOfPlain([a]);
    assert Parent([a]) == [];
  }

  /** Blank pieces at the end of a name are dropped from where the folder is displayed, but
      one fewer from what it is called: the folder is displayed at the name's first piece
      and called by a blank. */
  lemma BlankNameDiffers(a: Segment, x: Segment, d: Segment)
    requires Allowed(x + "/ / / /", d) && d != a
    ensures var r := Rename(Tree([Folder([a], [a], a, 1)], []), [a], x + "/ / / /", d, ALL_WELL);
            && r.error.None?
            && exists g <- r.tree.folders :: g.path == [d] && Display(g) == [x] && g.name == " "
  {
    var f, name := Folder([a], [a], a, 1), x + "/ / / /";
    var t := Tree([f], []);
    hide RenameRefusal;
    hide Rename;
    hide MoveFor;
    hide Sound;
    hide NoOthers;
    hide RequestsCarried;
    hide Normalize;
    hide Display;
    hide Final;
    hide Inv;
    hide Allowed;
    hide FindFolder;
    OneFolder(a);
    OneRenamed(a, name, d);
    RenameError(t, [a], name, d);
    BlankMove(a, x, d);
    BlankSound(a, x, d);
    RenameEffect(t, [a], name, d, ALL_WELL);
    ReplaceSelf([a], [d]);
    ReplaceSelf([a], [x]);
    hide Replace;
    assert f in t.folders;
  }

  lemma SoundMove(t: Tree, folder: Path, name: string, directory: Segment)
    requires FindFolder(t.folders, Normalize(folder)) < |t.folders|
    requires var m := MoveFor(t, folder, name, directory); Plain(Final(m)) && NoneBetween(t.folders, m.oldDisplay, Final(m))
    ensures Sound(t, RenameFolder(folder, name, directory, ALL_WELL))
  {
    hide RenameRefusal;
    hide MoveOf;
    hide Keys;
    hide Final;
    hide NoneBetween;
    hide Plain;
    hide Normalize;
  }

  lemma BlankSound(a: Segment, x: Segment, d: Segment)
    requires Allowed(x + "/ / / /", d) && d != a
    ensures Sound(Tree([Folder([a], [a], a, 1)], []), RenameFolder([a], x + "/ / / /", d, ALL_WELL))
  {
    var t := Tree([Folder([a], [a], a, 1)], []);
    OneFolder(a);
    NormalizePlain([x]);
    assert Plain([x]) && Parent([a]) == [];
    hide Sound;
    hide MoveFor;
    hide FindFolder;
    hide Shown;
    hide HasPath;
    hide HasDisplay;
    hide Distinct;
    BlankMove(a, x, d);
    hide Normalize;
    hide Display;
    hide Final;
    hide NoneBetween;
    hide Plain;
    hide Allowed;
    hide IsSegment;
    var m := MoveFor(t, [a], x + "/ / / /", d);
    NoneBetweenBeside(t.folders, m.oldDisplay, Final(m));
    SoundMove(t, [a], x + "/ / / /", d);
  }
}
