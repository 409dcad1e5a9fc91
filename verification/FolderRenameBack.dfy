// Renaming a folder and renaming it back, and folders that come to share a display path.

module FolderRenameBack {
  import opened FolderOrder
  import opened FolderPaths
  import opened Ordering
  import opened Paths
  import opened Text

  /** The same folder again, by both its paths, its name and its number. */
  predicate Again(f: Folder, g: Folder) {
    g.path == f.path && Display(g) == Display(f) && g.name == f.name && g.seqNo == f.seqNo
  }

  /** Every folder is back as it was, every request in its folder and at its file. */
  ghost predicate Restored(t: Tree, r: Tree) {
    && (forall f <- t.folders :: exists g <- r.folders :: Again(f, g))
    && |r.requests| == |t.requests|
    && (forall i :: 0 <= i < |t.requests| ==> BackInPlace(t.requests[i], r.requests[i]))
  }

  predicate BackInPlace(q: Request, r: Request) {
    Normalize(r.folder) == Normalize(q.folder) && r.file == q.file
  }

  /** Nothing else is displayed below the new display path, and no request's file lies below
      the new path. */
  ghost predicate Vacant(t: Tree, m: Move) {
    && (forall f <- t.folders :: Below(Display(f), m.oldDisplay) || !Below(Display(f), Final(m)))
    && (forall r <- t.requests :: Undisturbed(r, m))
  }

  predicate Undisturbed(r: Request, m: Move) {
    && (Below(Normalize(r.folder), m.oldDisplay) || !Below(Normalize(r.folder), Final(m)))
    && (Below(r.file, m.oldPath) || !Below(r.file, m.newPath))
  }

  /** Calling RenameFolder on the new path with the names the folder had. */
  function RenameBack(t: Tree, m: Move): Reply
    requires Plain(m.oldPath)
  {
    Rename(t, m.newPath, Base(m.oldDisplay), Base(m.oldPath), ALL_WELL)
  }

  predicate BackAllowed(m: Move) {
    |Base(m.oldDisplay)| <= 255 && !ReservedName(Base(m.oldPath))
  }

  /** What a folder's move keeps, and what the rename back starts from. */
  ghost predicate Moves(t: Tree, f: Folder, m: Move) {
    && Inv(t) && Proper(t.folders, m) && f in t.folders && f.path == m.oldPath && Display(f) == m.oldDisplay
    && Parent(m.newPath) == Parent(m.oldPath)
  }

  lemma MovesFor(t: Tree, folder: Path, name: string, directory: Segment) returns (f: Folder)
    requires Inv(t) && Rename(t, folder, name, directory, ALL_WELL).error.None?
    ensures FindFolder(t.folders, Normalize(folder)) < |t.folders|
    ensures f == t.folders[FindFolder(t.folders, Normalize(folder))]
    ensures var m := MoveFor(t, folder, name, directory);
            && Moves(t, f, m) && m.newPath == Parent(f.path) + [directory]
            && m.newDisplay == Normalize(JoinPath(ParentPath(Display(f)), Pieces(Trim(name))))
            && Rename(t, folder, name, directory, ALL_WELL).tree == After(t, m)
  {
    RenameAccepted(t, folder, name, directory, true);
    f := t.folders[FindFolder(t.folders, Normalize(folder))];
    RenameIsProper(t.folders, f, Trim(name), directory);
    hide RenameRefusal;
    hide MoveOf;
    hide Keys;
    hide HasChild;
    hide Normalize;
    hide Display;
    hide JoinPath;
    hide ParentPath;
    hide Sort;
    hide Proper;
  }

  /** Nothing is left at the old path. */
  lemma Vacated(t: Tree, m: Move)
    requires Rooted(t.folders) && Proper(t.folders, m) && Parent(m.newPath) == Parent(m.oldPath) && m.newPath != m.oldPath
    ensures forall g <- After(t, m).folders :: g.path != m.oldPath
  {
    forall g <- After(t, m).folders
      ensures g.path != m.oldPath
    {
      InAfter(t, m, g);
      var i := MovedIn(t.folders, m, g);
      MovedPath(t.folders[i], m);
      hide MovedFolder;
      hide MovedFolders;
      hide Sort;
      hide Plain;
      var p := t.folders[i].path;
      if m.oldPath <= p {
        assert |m.newPath| == |m.oldPath|;
        assert m.newPath <= g.path;
      }
    }
  }

  lemma BasePlain(p: Path)
    requires Plain(p)
    ensures IsSegment(Base(p)) && Trim(Base(p)) == Base(p) && Parent(p) + [Base(p)] == p
  {
    assert IsSegment(p[|p| - 1]);
    TrimIsTrimmed(Base(p));
  }

  lemma OwnName(g: Folder, p: Path)
    requires Plain(g.path) && Plain(p) && ChildNamed(g, Parent(p), Base(p))
    ensures g.path == p
  {
    NormalizePlain(g.path);
    ParentOfPlain(g.path);
    BasePlain(g.path);
    BasePlain(p);
    hide Normalize;
    hide ParentPath;
    hide Plain;
  }

  /** With the old path empty nobody there carries the old directory name. */
  lemma NobodyThere(t: Tree, m: Move)
    requires Rooted(t.folders) && Proper(t.folders, m) && Parent(m.newPath) == Parent(m.oldPath) && m.newPath != m.oldPath
    requires Rooted(After(t, m).folders)
    ensures !HasChild(After(t, m).folders, Parent(m.newPath), Base(m.oldPath))
  {
    Vacated(t, m);
    PlainPrefix(m.oldPath, |m.oldPath| - 1);
    NormalizePlain(Parent(m.oldPath));
    hide Normalize;
    hide After;
    hide ChildNamed;
    hide HasPath;
    forall g <- After(t, m).folders
      ensures !ChildNamed(g, Parent(m.oldPath), Base(m.oldPath))
    {
      if ChildNamed(g, Parent(m.oldPath), Base(m.oldPath)) {
        OwnName(g, m.oldPath);
        assert false;
      }
    }
  }

  lemma HitRefusal(t: Tree, p: Path, name: Segment, directory: Segment)
    requires Hits(t, p) && Plain(p)
    ensures RenameRefusal(t, p, name, directory, true).None? <==>
            |name| <= 255 && !ReservedName(directory) &&
            (Parent(p) + [directory] == p || !HasChild(t.folders, Parent(p), directory))
  {
    TrimIsTrimmed(name);
    NormalizePlain(p);
    ParentOfPlain(p);
    JoinOne(Parent(p), directory);
    hide HasChild;
    hide Normalize;
    hide JoinPath;
    hide ParentPath;
    hide Display;
    hide ReservedName;
  }

  lemma RenameError(t: Tree, folder: Path, name: string, directory: Segment)
    ensures Rename(t, folder, name, directory, ALL_WELL).error == RenameRefusal(t, folder, name, directory, true)
  {
    hide RenameRefusal;
    hide Renamed;
    hide MoveOf;
    hide Normalize;
  }

  /** The rename back is accepted exactly when the old names are. */
  lemma BackAccepted(t: Tree, f: Folder, m: Move)
    requires Moves(t, f, m) && Hits(After(t, m), m.newPath) && Inv(After(t, m))
    ensures RenameBack(After(t, m), m).error.None? <==> BackAllowed(m)
  {
    BasePlain(m.oldDisplay);
    BasePlain(m.oldPath);
    var r, name, directory := After(t, m), Base(m.oldDisplay), Base(m.oldPath);
    RenameError(r, m.newPath, name, directory);
    hide RenameRefusal;
    hide Rename;
    HitRefusal(r, m.newPath, name, directory);
    if m.newPath != m.oldPath {
      NobodyThere(t, m);
    }
    hide After;
    hide HasChild;
    hide Inv;
    hide Proper;
    hide Display;
    hide Plain;
    hide ReservedName;
    hide Base;
    assert Parent(m.newPath) + [directory] == m.oldPath;
  }

  /** The moves of a rename and of the rename back. */
  ghost predicate RoundTrip(t: Tree, f: Folder, m: Move, b: Move) {
    && Moves(t, f, m) && Plain(Final(m)) && Plain(Final(b)) && Inv(After(t, m)) && Proper(After(t, m).folders, b)
    && b.oldPath == m.newPath && b.newPath == m.oldPath && b.oldDisplay == Final(m)
    && Base(Normalize(b.newDisplay)) == Base(m.oldDisplay)
    && Unique(After(After(t, m), b).folders)
  }

  lemma BackDisplay(top: Path, s: Segment)
    requires Plain(top)
    ensures var d := Normalize(JoinPath(ParentPath(top), Pieces(Trim(s))));
            d == Parent(top) + [s] && Plain(d) && Normalize(d) == d && Base(d) == s
  {
    TrimIsTrimmed(s);
    SplitOne(s, '/');
    ParentOfPlain(top);
    JoinOne(Parent(top), s);
    NormalizePlain(Parent(top) + [s]);
    hide Normalize;
    hide JoinPath;
    hide ParentPath;
  }

  /** The move of a rename back. */
  lemma BackMove(t: Tree, f: Folder, m: Move) returns (b: Move)
    requires Moves(t, f, m) && Plain(Final(m)) && Hits(After(t, m), m.newPath) && Inv(After(t, m))
    requires RenameBack(After(t, m), m).error.None?
    ensures RenameBack(After(t, m), m).tree == After(After(t, m), b)
    ensures RoundTrip(t, f, m, b) && Final(b) == Parent(Final(m)) + [Base(m.oldDisplay)]
  {
    var r := After(t, m);
    BasePlain(m.oldDisplay);
    BasePlain(m.oldPath);
    NormalizePlain(m.newPath);
    var h := MovesFor(r, m.newPath, Base(m.oldDisplay), Base(m.oldPath));
    b := MoveFor(r, m.newPath, Base(m.oldDisplay), Base(m.oldPath));
    HitFolder(t, f, m, h);
    BackDisplay(Final(m), Base(m.oldDisplay));
    BackUnique(t, m, b);
    hide After;
    hide Inv;
    hide Normalize;
    hide JoinPath;
    hide ParentPath;
    hide Display;
    hide Pieces;
    hide Rename;
    hide MoveFor;
    hide Unique;
    hide Proper;
    hide Plain;
    assert Final(b) == Normalize(Normalize(b.newDisplay)) == b.newDisplay;
  }

  lemma ReplaceSelf(p: Path, newTop: Path)
    requires p != []
    ensures Replace(p, p, newTop) == newTop
  {
    assert p[|p|..] == [] && newTop + [] == newTop;
  }

  lemma HitFolder(t: Tree, f: Folder, m: Move, h: Folder)
    requires Moves(t, f, m) && Plain(Final(m)) && h in After(t, m).folders && h.path == m.newPath && Inv(After(t, m))
    ensures Display(h) == Final(m)
  {
    MovedTo(t.folders, m, f);
    InAfter(t, m, MovedFolder(f, m));
    MovedParts(f, m);
    ReplaceSelf(m.oldPath, m.newPath);
    ReplaceSelf(m.oldDisplay, Final(m));
    hide Replace;
    hide MovedFolder;
    hide After;
    hide MovedFolders;
    hide Final;
    hide Display;
    hide Plain;
    hide Rooted;
    hide Coherent;
    hide Housed;
    hide Distinct;
    assert h == MovedFolder(f, m);
  }

  /** One folder after both renames. */
  lemma BackAndForth(t: Tree, m: Move, b: Move, f: Folder) returns (g: Folder)
    requires Rooted(t.folders) && Coherent(t.folders) && f in t.folders && Proper(t.folders, m) && Plain(Final(m))
    requires Inv(After(t, m)) && Proper(After(t, m).folders, b) && Plain(Final(b))
    requires b.oldPath == m.newPath && b.newPath == m.oldPath && b.oldDisplay == Final(m)
    ensures g in After(After(t, m), b).folders && g.path == f.path
    ensures Display(g) == Replace(Replace(Display(f), m.oldDisplay, Final(m)), Final(m), Final(b))
    ensures g.name == if f.path == m.oldPath then Base(Normalize(b.newDisplay)) else f.name
    ensures g.seqNo == f.seqNo
  {
    var k := MovedFolder(f, m);
    MovedTo(t.folders, m, f);
    InAfter(t, m, k);
    MovedParts(f, m);
    MovedName(f, m);
    ArrivesAt(f.path, m.oldPath, m.newPath);
    PathBack(f.path, m.oldPath, m.newPath);
    hide Replace;
    hide MovedFolder;
    hide After;
    hide MovedFolders;
    hide Display;
    hide Final;
    hide Plain;
    hide Shown;
    hide Inv;
    hide Coherent;
    hide Rooted;
    g := MovedFolder(k, b);
    MovedTo(After(t, m).folders, b, k);
    InAfter(After(t, m), b, g);
    MovedParts(k, b);
    BackName(t, m, b, k);
  }

  lemma BackName(t: Tree, m: Move, b: Move, k: Folder)
    requires Inv(After(t, m)) && Proper(After(t, m).folders, b) && k in After(t, m).folders
    ensures MovedFolder(k, b).name == if k.path == b.oldPath then Base(Normalize(b.newDisplay)) else k.name
    ensures MovedFolder(k, b).seqNo == k.seqNo
  {
    hide After;
    hide Normalize;
    hide MovedFolder;
    hide Plain;
    hide Shown;
    hide Display;
    MovedName(k, b);
  }

  lemma ArrivesAt(p: Path, oldTop: Path, newTop: Path)
    requires Clear(p, oldTop, newTop)
    ensures Replace(p, oldTop, newTop) == newTop <==> p == oldTop
  {
    if p == oldTop {
      assert p[|oldTop|..] == [] && newTop + [] == newTop;
    } else if oldTop <= p {
      assert |Replace(p, oldTop, newTop)| > |newTop|;
    }
  }

  lemma PathBack(p: Path, oldTop: Path, newTop: Path)
    requires Clear(p, oldTop, newTop)
    ensures Replace(Replace(p, oldTop, newTop), newTop, oldTop) == p
  {
    ReplacedBack(p, oldTop, newTop);
    if oldTop == newTop && oldTop <= p {
      assert newTop + p[|oldTop|..] == p;
    }
  }

  lemma BackKey(t: Tree, m: Move, b: Move, r: Request)
    requires Rooted(t.folders) && Coherent(t.folders) && Housed(t.folders, t.requests) && r in t.requests
    requires Plain(m.oldDisplay) && Plain(Final(m)) && Plain(Final(b)) && b.oldDisplay == Final(m)
    ensures Normalize(MovedRequest(MovedRequest(r, m), b).folder) ==
            Replace(Replace(Normalize(r.folder), m.oldDisplay, Final(m)), Final(m), Final(b))
  {
    if Normalize(r.folder) != [] {
      var f :| f in t.folders && Display(f) == Normalize(r.folder);
      ShownDisplay(f);
      ReplacePlain(Normalize(r.folder), m.oldDisplay, Final(m));
    }
    MovedKey(r, m);
    MovedKey(MovedRequest(r, m), b);
    hide MovedRequest;
    hide Normalize;
    hide Display;
    hide Final;
    hide Plain;
  }

  lemma TwiceMoved(t: Tree, m: Move, b: Move, i: nat)
    requires i < |t.requests|
    ensures |After(After(t, m), b).requests| == |t.requests|
    ensures After(After(t, m), b).requests[i] == MovedRequest(MovedRequest(t.requests[i], m), b)
  {
    hide Sort;
    hide MovedFolders;
    hide MovedRequest;
  }

  lemma BackRequest(t: Tree, m: Move, b: Move, i: nat)
    requires Rooted(t.folders) && Coherent(t.folders) && Housed(t.folders, t.requests) && i < |t.requests|
    requires Plain(m.oldDisplay) && Plain(Final(m)) && b.oldDisplay == Final(m) && Final(b) == m.oldDisplay
    requires Plain(m.oldPath) && Plain(m.newPath) && b.oldPath == m.newPath && b.newPath == m.oldPath
    ensures |After(After(t, m), b).requests| == |t.requests|
    ensures BackInPlace(t.requests[i], After(After(t, m), b).requests[i]) <==> Undisturbed(t.requests[i], m)
  {
    var r := t.requests[i];
    TwiceMoved(t, m, b, i);
    hide After;
    hide MovedRequest;
    hide Rooted;
    hide Coherent;
    hide Housed;
    hide Plain;
    hide Final;
    hide Replace;
    hide Normalize;
    hide BackInPlace;
    hide Undisturbed;
    BackKey(t, m, b, r);
    MovedFile(r, m);
    MovedFile(MovedRequest(r, m), b);
    BackPlace(r, MovedRequest(MovedRequest(r, m), b), m);
  }

  lemma BackPlace(q: Request, r: Request, m: Move)
    requires Plain(m.oldDisplay) && Plain(Final(m)) && Plain(m.oldPath) && Plain(m.newPath)
    requires Normalize(r.folder) == Replace(Replace(Normalize(q.folder), m.oldDisplay, Final(m)), Final(m), m.oldDisplay)
    requires r.file == Replace(Replace(q.file, m.oldPath, m.newPath), m.newPath, m.oldPath)
    ensures BackInPlace(q, r) <==> Undisturbed(q, m)
  {
    hide Normalize;
    hide Final;
    PlainNotEmpty(m.oldDisplay);
    PlainNotEmpty(Final(m));
    PlainNotEmpty(m.oldPath);
    PlainNotEmpty(m.newPath);
    hide Plain;
    hide Replace;
    ReplacedBack(Normalize(q.folder), m.oldDisplay, Final(m));
    ReplacedBack(q.file, m.oldPath, m.newPath);
  }

  lemma MovedFile(r: Request, m: Move)
    ensures MovedRequest(r, m).file == Replace(r.file, m.oldPath, m.newPath)
  {
  }

  /** An accepted rename back of the right folder restores the tree exactly when the new
      display path stood beside the old one, nothing else was displayed below it, and the
      folder was called by where it was displayed. */
  lemma BackRestores(t: Tree, f: Folder, m: Move)
    requires Moves(t, f, m) && Plain(Final(m)) && Hits(After(t, m), m.newPath) && Inv(After(t, m))
    requires RenameBack(After(t, m), m).error.None?
    ensures Restored(t, RenameBack(After(t, m), m).tree) <==>
            Parent(Final(m)) == Parent(m.oldDisplay) && Vacant(t, m) && f.name == Base(m.oldDisplay)
  {
    var b := BackMove(t, f, m);
    PlainNotEmpty(m.oldDisplay);
    SameBase(m.oldDisplay, Final(m));
    hide After;
    hide Inv;
    hide Moves;
    hide RoundTrip;
    hide Final;
    hide RenameBack;
    hide Hits;
    hide Vacant;
    hide Restored;
    if f.name != Base(m.oldDisplay) {
      OtherName(t, f, m, b);
    } else if Final(b) == m.oldDisplay {
      if Vacant(t, m) {
        AllRestored(t, f, m, b);
      } else {
        NotAllRestored(t, f, m, b);
      }
    } else {
      ElsewhereDisplayed(t, f, m, b);
    }
  }

  lemma SameBase(p: Path, q: Path)
    requires p != []
    ensures Parent(q) + [Base(p)] == p <==> Parent(q) == Parent(p)
  {
    assert p == Parent(p) + [Base(p)];
    assert Parent(Parent(q) + [Base(p)]) == Parent(q);
  }

  lemma BackUnique(t: Tree, m: Move, b: Move)
    requires Inv(After(t, m)) && Proper(After(t, m).folders, b)
    ensures Unique(After(After(t, m), b).folders)
  {
    var fs := After(t, m).folders;
    MoveKeepsUnique(fs, b);
    SortPermutes(FolderLeq, MovedFolders(fs, b));
    SameFolders(MovedFolders(fs, b), Sort(MovedFolders(fs, b)));
    PermutationDistinct(MovedFolders(fs, b), Sort(MovedFolders(fs, b)));
    assert After(After(t, m), b).folders == Sort(MovedFolders(fs, b));
    hide Sort;
    hide MovedFolders;
    hide After;
    hide Distinct;
    hide Proper;
    hide Rooted;
    hide Coherent;
    hide Housed;
  }

  lemma AllRestored(t: Tree, f: Folder, m: Move, b: Move)
    requires RoundTrip(t, f, m, b) && Final(b) == m.oldDisplay && Vacant(t, m) && f.name == Base(m.oldDisplay)
    ensures Restored(t, After(After(t, m), b))
  {
    var r := After(After(t, m), b);
    hide After;
    hide Final;
    hide Display;
    hide Normalize;
    hide Shown;
    hide HasPath;
    hide HasDisplay;
    forall h <- t.folders
      ensures exists g <- r.folders :: Again(h, g)
    {
      var g := BackAndForth(t, m, b, h);
      ReplacedBack(Display(h), m.oldDisplay, Final(m));
    }
    assert |r.requests| == |t.requests| by {
      AfterLengths(t, m, b);
    }
    forall i | 0 <= i < |t.requests|
      ensures BackInPlace(t.requests[i], r.requests[i])
    {
      BackRequest(t, m, b, i);
      assert t.requests[i] in t.requests;
    }
  }

  lemma AfterLengths(t: Tree, m: Move, b: Move)
    ensures |After(After(t, m), b).requests| == |t.requests|
  {
    hide Sort;
    hide MovedFolders;
  }

  lemma NotAllRestored(t: Tree, f: Folder, m: Move, b: Move)
    requires RoundTrip(t, f, m, b) && Final(b) == m.oldDisplay && !Vacant(t, m)
    ensures !Restored(t, After(After(t, m), b))
  {
    var r := After(After(t, m), b);
    hide After;
    hide Final;
    hide Display;
    hide Normalize;
    hide Shown;
    hide HasPath;
    hide HasDisplay;
    hide Plain;
    assert Plain(m.oldDisplay) && m.oldDisplay != [] && Final(m) != [] by { PlainNotEmpty(m.oldDisplay); PlainNotEmpty(Final(m)); }
    if h :| h in t.folders && !Below(Display(h), m.oldDisplay) && Below(Display(h), Final(m)) {
      var g := BackAndForth(t, m, b, h);
      ReplacedBack(Display(h), m.oldDisplay, Final(m));
      assert g in r.folders && g.path == h.path && Display(g) != Display(h);
    } else {
      var q :| q in t.requests && !Undisturbed(q, m);
      var i :| 0 <= i < |t.requests| && t.requests[i] == q;
      BackRequest(t, m, b, i);
    }
  }

  /** A folder called otherwise than by where it was displayed gets another name. */
  lemma OtherName(t: Tree, f: Folder, m: Move, b: Move)
    requires RoundTrip(t, f, m, b) && f.name != Base(m.oldDisplay)
    ensures !Restored(t, After(After(t, m), b))
  {
    hide After;
    hide Final;
    hide Display;
    hide Normalize;
    hide Shown;
    hide HasPath;
    hide HasDisplay;
    hide Plain;
    var g := BackAndForth(t, m, b, f);
    assert g.name == Base(m.oldDisplay);
  }

  lemma ElsewhereDisplayed(t: Tree, f: Folder, m: Move, b: Move)
    requires RoundTrip(t, f, m, b) && Final(b) != m.oldDisplay
    ensures !Restored(t, After(After(t, m), b))
  {
    hide After;
    hide Final;
    hide Display;
    hide Normalize;
    hide Shown;
    hide HasPath;
    hide HasDisplay;
    hide Plain;
    var g := BackAndForth(t, m, b, f);
    assert m.oldDisplay[|m.oldDisplay|..] == [] && Final(m) + [] == Final(m);
    assert Final(m)[|Final(m)|..] == [] && Final(b) + [] == Final(b);
    PlainNotEmpty(m.oldDisplay);
    PlainNotEmpty(Final(m));
    assert Display(g) == Final(b);
  }

  /** A rename back that is refused, or that finds another folder displayed at the new path,
      leaves some folder away from where it was. */
  lemma BackMisses(t: Tree, f: Folder, m: Move)
    requires Moves(t, f, m) && Plain(Final(m)) && Inv(After(t, m)) && m.newPath != m.oldPath
    requires !Hits(After(t, m), m.newPath) || RenameBack(After(t, m), m).error.Some?
    ensures !Restored(t, RenameBack(After(t, m), m).tree)
  {
    var r := After(t, m);
    Vacated(t, m);
    NormalizePlain(m.newPath);
    hide After;
    hide Display;
    hide Final;
    hide RenameRefusal;
    hide Normalize;
    if RenameBack(r, m).error.Some? {
      hide Inv;
      hide Proper;
      assert RenameBack(r, m).tree == r;
      assert forall g <- r.folders :: g.path != f.path;
    } else {
      assert IsSegment(Base(m.oldPath));
      var h := MovesFor(r, m.newPath, Base(m.oldDisplay), Base(m.oldPath));
      var b := MoveFor(r, m.newPath, Base(m.oldDisplay), Base(m.oldPath));
      assert h.path != m.newPath;
      hide Rename;
      hide MoveFor;
      OtherMoved(t, f, m, h, b);
    }
  }

  lemma Missing(t: Tree, r: Tree, k: Folder)
    requires k in t.folders && forall g <- r.folders :: g.path != k.path
    ensures !Restored(t, r)
  {
    hide Display;
    hide Normalize;
  }

  lemma OtherMoved(t: Tree, f: Folder, m: Move, h: Folder, b: Move)
    requires Moves(t, f, m) && m.newPath != m.oldPath && Moves(After(t, m), h, b) && h.path != m.newPath
    requires b.newPath == Parent(h.path) + [Base(m.oldPath)]
    ensures !Restored(t, After(After(t, m), b))
  {
    var r := After(t, m);
    InAfter(t, m, h);
    var i := MovedIn(t.folders, m, h);
    var k := t.folders[i];
    MovedPath(k, m);
    if b.newPath != b.oldPath && !Below(k.path, m.oldPath) {
      Vacated(r, b);
      hide After;
      assert k.path == h.path;
      Missing(t, After(r, b), k);
    } else {
      OthersElsewhere(t, f, m, h, b, k);
      hide After;
      Missing(t, After(r, b), f);
    }
  }

  lemma OthersElsewhere(t: Tree, f: Folder, m: Move, h: Folder, b: Move, k: Folder)
    requires Moves(t, f, m) && m.newPath != m.oldPath && Moves(After(t, m), h, b) && h.path != m.newPath
    requires b.newPath == Parent(h.path) + [Base(m.oldPath)] && h.path == Replace(k.path, m.oldPath, m.newPath)
    requires b.newPath == b.oldPath || Below(k.path, m.oldPath)
    ensures forall g <- After(After(t, m), b).folders :: g.path != f.path
  {
    var r := After(t, m);
    Vacated(t, m);
    PlainNotEmpty(m.oldPath);
    PlainNotEmpty(m.newPath);
    PlainNotEmpty(h.path);
    forall g <- After(r, b).folders
      ensures g.path != f.path
    {
      InAfter(r, b, g);
      var j := MovedIn(r.folders, b, g);
      MovedPath(r.folders[j], b);
      hide After;
      hide Plain;
      hide Replace;
      hide MovedFolder;
      OtherPath(t, m, h, b, k, r.folders[j].path);
    }
  }

  lemma OtherPath(t: Tree, m: Move, h: Folder, b: Move, k: Folder, q: Path)
    requires m.oldPath != [] && m.newPath != [] && Parent(m.newPath) == Parent(m.oldPath) && q != m.oldPath
    requires b.oldPath == h.path && h.path != [] && h.path != m.newPath && h.path == Replace(k.path, m.oldPath, m.newPath)
    requires b.newPath == Parent(h.path) + [Base(m.oldPath)]
    requires b.newPath == b.oldPath || Below(k.path, m.oldPath)
    ensures Replace(q, b.oldPath, b.newPath) != m.oldPath
  {
    if b.oldPath <= q {
      assert q == b.oldPath + q[|b.oldPath|..];
      if Below(k.path, m.oldPath) && b.newPath != b.oldPath {
        assert h.path == m.newPath + k.path[|m.oldPath|..];
        assert |h.path| > |m.newPath| == |m.oldPath|;
        assert |b.newPath| == |h.path|;
      }
    }
  }

  /** Renaming a folder and calling RenameFolder on its new path with its old names puts the
      whole tree back exactly when the search finds the renamed folder, the old names are
      allowed, the new display path stood beside the old one, nothing else was displayed
      below it, and the folder was called by the last piece of where it was displayed. */
  lemma RenameBackExactly(t: Tree, folder: Path, name: string, directory: Segment)
    requires Inv(t) && Rename(t, folder, name, directory, ALL_WELL).error.None?
    requires Sound(t, RenameFolder(folder, name, directory, ALL_WELL))
    ensures FindFolder(t.folders, Normalize(folder)) < |t.folders| && Plain(MoveFor(t, folder, name, directory).oldPath)
    ensures var m := MoveFor(t, folder, name, directory);
            var r := Rename(t, folder, name, directory, ALL_WELL).tree;
            var here := Hits(r, m.newPath) && BackAllowed(m);
            var beside := Parent(Final(m)) == Parent(m.oldDisplay) && Vacant(t, m)
                          && t.folders[FindFolder(t.folders, Normalize(folder))].name == Base(m.oldDisplay);
            && (here ==> RenameBack(r, m).error.None? && (Restored(t, RenameBack(r, m).tree) <==> beside))
            && (m.newPath != m.oldPath ==> (Restored(t, RenameBack(r, m).tree) <==> here && beside))
  {
    var f := MovesFor(t, folder, name, directory);
    var m := MoveFor(t, folder, name, directory);
    var r := Rename(t, folder, name, directory, ALL_WELL).tree;
    RenameError(t, folder, name, directory);
    SoundRename(t, folder, name, directory, ALL_WELL);
    RenameKeepsTree(t, folder, name, directory, ALL_WELL);
    hide Sound;
    hide RenameRefusal;
    hide Rename;
    hide MoveFor;
    hide After;
    hide Inv;
    hide Proper;
    hide Final;
    hide Plain;
    hide Display;
    hide Normalize;
    hide RenameBack;
    hide Hits;
    hide Vacant;
    hide Restored;
    hide BackAllowed;
    hide Sound;
    if Hits(r, m.newPath) {
      BackAccepted(t, f, m);
      if BackAllowed(m) {
        BackRestores(t, f, m);
      }
    }
    if m.newPath != m.oldPath && !(Hits(r, m.newPath) && BackAllowed(m)) {
      BackMisses(t, f, m);
    }
  }

  /** For a name made of names, standing beside means having one piece. */
  lemma BesideIsOnePiece(t: Tree, folder: Path, name: string, directory: Segment)
    requires Inv(t) && Rename(t, folder, name, directory, ALL_WELL).error.None? && GoodPieces(Trim(name))
    ensures FindFolder(t.folders, Normalize(folder)) < |t.folders|
    ensures var m := MoveFor(t, folder, name, directory);
            Parent(Final(m)) == Parent(m.oldDisplay) <==> |NonEmpty(Pieces(Trim(name)))| == 1
  {
    RenameAccepted(t, folder, name, directory, true);
    GoodRename(t, FindFolder(t.folders, Normalize(folder)), Trim(name), directory);
    var m := MoveFor(t, folder, name, directory);
    var ps := NonEmpty(Pieces(Trim(name)));
    hide Normalize;
    hide MoveOf;
    hide Keys;
    hide HasChild;
    hide Final;
    hide GoodPieces;
    hide NonEmpty;
    hide Pieces;
    hide Inv;
    hide NoneBetween;
    hide Plain;
    hide Parent;
    hide Display;
    PieceBelow(Parent(m.oldDisplay), ps);
  }

  lemma PieceBelow(top: Path, ps: Path)
    requires ps != []
    ensures Parent(top + ps) == top <==> |ps| == 1
  {
    if |ps| == 1 {
      assert Parent(top + ps) == top;
    } else {
      assert |Parent(top + ps)| > |top|;
    }
  }

  // --- a name with a slash -------------------------------------------------------------------------

  lemma OneShown(a: Segment)
    ensures var f := Folder([a], [a], a, 1);
            Shown(f) && Display(f) == [a] && Normalize([a]) == [a] && Plain([a]) && Found(f, [a])
  {
    NormalizePlain([a]);
    hide Normalize;
    ShownDisplay(Folder([a], [a], a, 1));
    hide Display;
  }

  lemma OneTree(f: Folder)
    requires Shown(f) && Plain(f.path) && |f.path| == 1
    ensures Inv(Tree([f], []))
  {
    hide Shown;
    hide Display;
    hide Plain;
    assert Distinct([f]);
    assert Unique([f]) && Rooted([f]) && Coherent([f]) && Housed([f], []);
  }

  lemma OneFound(f: Folder, key: Path)
    requires Found(f, key)
    ensures FindFolder([f], key) == 0
  {
    hide Found;
  }

  lemma OneFolder(a: Segment)
    ensures Inv(Tree([Folder([a], [a], a, 1)], []))
    ensures Display(Folder([a], [a], a, 1)) == [a]
    ensures FindFolder([Folder([a], [a], a, 1)], [a]) == 0 && Normalize([a]) == [a]
  {
    OneShown(a);
    OneTree(Folder([a], [a], a, 1));
    OneFound(Folder([a], [a], a, 1), [a]);
    hide Inv;
    hide Display;
    hide Normalize;
    hide FindFolder;
  }

  lemma TwoPieces(x: Segment, y: Segment)
    ensures var name := x + "/" + y;
            Trim(name) == name && name != [] && Pieces(name) == [x, y] && GoodPieces(name) && NonEmpty(Pieces(name)) == [x, y]
  {
    var name := x + "/" + y;
    assert name[0] == x[0] && name[|name| - 1] == y[|y| - 1];
    assert Trimmed(name);
    TrimIsTrimmed(name);
    SplitCons(x, '/', y);
    SplitOne(y, '/');
    assert x + ['/'] + y == name;
    hide Split;
    hide Trim;
    assert [x, y][..1] == [x] && [x][..0] == [];
    assert NonEmpty([x]) == [x];
  }

  /** Whether the name of a single folder may be given. */
  predicate Allowed(name: string, directory: string) {
    name != [] && Trim(name) == name && |name| <= 255 && !ReservedName(directory)
  }

  lemma OneChild(a: Segment, d: Segment)
    requires d != a
    ensures ParentPath([a]) == [] && !HasChild([Folder([a], [a], a, 1)], [], d)
  {
    NormalizePlain([a]);
    ParentOfPlain([a]);
    NormalizePlain([]);
    TrimIsTrimmed(a);
    TrimIsTrimmed(d);
    hide Normalize;
    hide ParentPath;
    hide Trim;
    assert Parent([a]) == [] && Base([a]) == a;
  }

  lemma OneRenamed(a: Segment, name: string, d: Segment)
    requires Allowed(name, d) && d != a
    ensures RenameRefusal(Tree([Folder([a], [a], a, 1)], []), [a], name, d, true).None?
  {
    OneFolder(a);
    OneChild(a, d);
    hide Inv;
    hide Normalize;
    hide ParentPath;
    hide HasChild;
    hide ReservedName;
    hide Trim;
    hide Display;
    hide JoinPath;
    hide FindFolder;
  }

  lemma AfterOne(f: Folder, m: Move)
    ensures After(Tree([f], []), m).folders == [MovedFolder(f, m)]
  {
    assert MovedFolders([f], m) == [MovedFolder(f, m)];
    OneSorted(MovedFolder(f, m));
    hide MovedFolder;
    hide Sort;
  }

  lemma MovedOnce(f: Folder, m: Move)
    requires Plain(f.path) && Plain(m.oldPath) && Plain(m.newPath) && f.path == m.oldPath
    ensures Hits(After(Tree([f], []), m), m.newPath)
  {
    AfterOne(f, m);
    MovedPath(f, m);
    PlainNotEmpty(m.oldPath);
    ReplaceSelf(m.oldPath, m.newPath);
    NormalizePlain(m.newPath);
    hide After;
    hide MovedFolder;
    hide Normalize;
    hide Replace;
    hide Plain;
    OneFound(MovedFolder(f, m), m.newPath);
    hide FindFolder;
  }

  /** Wherever the rename back is accepted for the renamed folder, that folder is at its old
      path, displayed under its old name beside where it was displayed meanwhile. */
  lemma ComesBackTo(t: Tree, f: Folder, m: Move)
    requires Moves(t, f, m) && Plain(Final(m)) && Hits(After(t, m), m.newPath) && Inv(After(t, m)) && BackAllowed(m)
    ensures RenameBack(After(t, m), m).error.None?
    ensures exists g <- RenameBack(After(t, m), m).tree.folders ::
              g.path == f.path && Display(g) == Parent(Final(m)) + [Base(m.oldDisplay)]
  {
    BackAccepted(t, f, m);
    var b := BackMove(t, f, m);
    PlainNotEmpty(m.oldDisplay);
    PlainNotEmpty(Final(m));
    ReplaceSelf(m.oldDisplay, Final(m));
    ReplaceSelf(Final(m), Final(b));
    hide Replace;
    hide RenameBack;
    hide After;
    hide Final;
    hide Display;
    hide Inv;
    var g := BackAndForth(t, m, b, f);
  }

  /** A folder renamed to a name with a slash and back, all of it accepted, is at its old
      path and displayed below the first piece of that name. */
  lemma SlashNameDoesNotComeBack(a: Segment, x: Segment, y: Segment, d: Segment)
    requires Allowed(x + "/" + y, d) && Allowed(a, a) && d != a
    ensures var t := Tree([Folder([a], [a], a, 1)], []);
            var r := Rename(t, [a], x + "/" + y, d, ALL_WELL);
            && r.error.None? && FindFolder(t.folders, Normalize([a])) < |t.folders|
            && var m := MoveFor(t, [a], x + "/" + y, d);
            && Plain(m.oldPath)
            && var u := RenameBack(r.tree, m);
            && u.error.None? && !Restored(t, u.tree)
            && exists g <- u.tree.folders :: g.path == [a] && Display(g) == [x, a]
  {
    var f := Folder([a], [a], a, 1);
    var t := Tree([f], []);
    var name := x + "/" + y;
    OneFolder(a);
    TwoPieces(x, y);
    OneRenamed(a, name, d);
    RenameError(t, [a], name, d);
    OneMove(a, x, y, d);
    var h := MovesFor(t, [a], name, d);
    var m := MoveFor(t, [a], name, d);
    OneSound(a, x, y, d);
    hide RenameRefusal;
    hide Rename;
    hide MoveFor;
    hide Sound;
    hide Pieces;
    hide NonEmpty;
    hide Trim;
    hide Display;
    hide Normalize;
    hide After;
    hide Inv;
    hide Final;
    hide RenameBack;
    hide Restored;
    hide Plain;
    hide FindFolder;
    ThereAndBack(f, m, a, x, y);
  }

  lemma OneSound(a: Segment, x: Segment, y: Segment, d: Segment)
    requires Allowed(x + "/" + y, d) && d != a
    ensures Inv(Rename(Tree([Folder([a], [a], a, 1)], []), [a], x + "/" + y, d, ALL_WELL).tree)
  {
    var t := Tree([Folder([a], [a], a, 1)], []);
    var name := x + "/" + y;
    OneFolder(a);
    TwoPieces(x, y);
    hide Inv;
    hide Rename;
    hide Sound;
    hide GoodPieces;
    hide Trim;
    hide Pieces;
    hide NonEmpty;
    hide Display;
    hide Normalize;
    NameableIsSound(t, RenameFolder([a], name, d, ALL_WELL));
    RenameKeepsTree(t, [a], name, d, ALL_WELL);
  }

  lemma NotBeside(t: Tree, f: Folder, m: Move)
    requires Moves(t, f, m) && Plain(Final(m)) && Hits(After(t, m), m.newPath) && Inv(After(t, m)) && BackAllowed(m)
    requires Parent(Final(m)) != Parent(m.oldDisplay)
    ensures var u := RenameBack(After(t, m), m);
            && u.error.None? && !Restored(t, u.tree)
            && exists g <- u.tree.folders :: g.path == f.path && Display(g) == Parent(Final(m)) + [Base(m.oldDisplay)]
  {
    ComesBackTo(t, f, m);
    BackRestores(t, f, m);
    hide After;
    hide Moves;
    hide Inv;
    hide Final;
    hide RenameBack;
    hide Restored;
    hide Plain;
    hide Display;
    hide Hits;
    hide BackAllowed;
    hide Vacant;
    hide Parent;
    hide Base;
  }

  lemma MovePlain(t: Tree, f: Folder, m: Move)
    requires Moves(t, f, m)
    ensures Plain(f.path) && Plain(m.oldPath) && Plain(m.newPath) && f.path == m.oldPath
  {
    hide Plain;
    hide Normalize;
    hide Display;
  }

  lemma ThereAndBack(f: Folder, m: Move, a: Segment, x: Segment, y: Segment)
    requires var t := Tree([f], []); Moves(t, f, m) && Inv(After(t, m))
    requires m.oldPath == [a] && m.oldDisplay == [a] && Final(m) == [x, y] && Plain([x, y]) && Allowed(a, a)
    ensures var t := Tree([f], []);
            var u := RenameBack(After(t, m), m);
            && u.error.None? && !Restored(t, u.tree)
            && exists g <- u.tree.folders :: g.path == [a] && Display(g) == [x, a]
  {
    var t := Tree([f], []);
    MovePlain(t, f, m);
    MovedOnce(f, m);
    hide After;
    hide Moves;
    hide Inv;
    hide Final;
    hide RenameBack;
    hide Restored;
    hide Plain;
    hide Display;
    hide Hits;
    hide Trim;
    hide ReservedName;
    PieceFacts(a, x, y);
    hide Parent;
    hide Base;
    NotBeside(t, f, m);
  }

  lemma PieceFacts(a: string, x: string, y: string)
    ensures Base([a]) == a && Parent([x, y]) + [a] == [x, a] && Parent([x, y]) != Parent([a])
  {
    assert Parent([x, y]) == [x] && Parent([a]) == [];
  }

  lemma OneMove(a: Segment, x: Segment, y: Segment, d: Segment)
    requires Allowed(x + "/" + y, d) && d != a
    ensures var t := Tree([Folder([a], [a], a, 1)], []);
            && FindFolder(t.folders, Normalize([a])) == 0
            && var m := MoveFor(t, [a], x + "/" + y, d);
            && m.oldPath == [a] && m.newPath == [d] && m.oldDisplay == [a] && Final(m) == [x, y] && Plain([x, y])
  {
    var f := Folder([a], [a], a, 1);
    var t := Tree([f], []);
    var name := x + "/" + y;
    OneFolder(a);
    TwoPieces(x, y);
    OneRenamed(a, name, d);
    RenameAccepted(t, [a], name, d, true);
    assert t.folders[0] == f;
    GoodRename(t, 0, name, d);
    RenameIsProper(t.folders, f, name, d);
    assert Parent([a]) + [d] == [d] && Parent([a]) + [x, y] == [x, y];
    hide RenameRefusal;
    hide MoveOf;
    hide Keys;
    hide Pieces;
    hide NonEmpty;
    hide Trim;
    hide Display;
    hide Normalize;
    hide Inv;
    hide Final;
    hide Proper;
    hide HasChild;
    hide Plain;
  }
}

module FolderDisplays {
  import opened FolderOrder
  import opened FolderPaths
  import opened Ordering
  import opened Paths
  import opened Text

  /** No two folders are displayed at the same path. */
  ghost predicate Apart(folders: seq<Folder>) {
    forall f, g :: f in folders && g in folders && Display(f) == Display(g) ==> f == g
  }

  /** A folder that stays is displayed where one that moves arrives. */
  ghost predicate Collide(folders: seq<Folder>, oldTop: Path, newTop: Path) {
    exists u, v :: u in folders && v in folders && !Below(Display(u), oldTop) && Below(Display(v), oldTop) &&
                   Display(u) == Replace(Display(v), oldTop, newTop)
  }

  lemma SortApart(folders: seq<Folder>)
    ensures Apart(Sort(folders)) <==> Apart(folders)
  {
    SortPermutes(FolderLeq, folders);
    SameFolders(folders, Sort(folders));
    hide Sort;
    hide Display;
  }

  /** A new folder shares a display path exactly when one is displayed there already: the
      duplicate check looks at directory names alone. */
  lemma CreateKeepsApart(t: Tree, parent: Path, name: string, directory: Segment, answers: Answers)
    requires Inv(t) && Apart(t.folders) && CreateRefusal(t, parent, name, directory, answers.disk).None?
    ensures ParentPaths(t.folders, parent).Some?
    ensures var home := ParentPaths(t.folders, parent).value;
            Apart(Create(t, parent, name, directory, answers).tree.folders) <==>
            !HasDisplay(t.folders, Display(NewFolder(t, home.0, home.1, Trim(name), directory)))
  {
    CreateAccepted(t, parent, name, directory, answers.disk);
    var home := ParentPaths(t.folders, parent).value;
    var i := Placed(t, parent, Trim(name), directory);
    var f := NewFolder(t, home.0, home.1, Trim(name), directory);
    assert f !in t.folders by {
      assert Below(f.path, f.path);
    }
    hide Sort;
    hide Inv;
    hide NewFolder;
    hide Display;
    hide CreateRefusal;
    hide ParentPaths;
    hide HasChild;
    hide Apart;
    SortApart(t.folders + [f]);
    SnocApart(t.folders, f);
  }

  lemma SnocApart(folders: seq<Folder>, f: Folder)
    requires Apart(folders) && f !in folders
    ensures Apart(folders + [f]) <==> !HasDisplay(folders, Display(f))
  {
    hide Display;
    assert f in folders + [f];
    if h :| h in folders && Display(h) == Display(f) {
      assert h in folders + [f];
    }
  }

  lemma RenameKeepsApart(t: Tree, folder: Path, name: string, directory: Segment, answers: Answers)
    requires Inv(t) && Apart(t.folders) && RenameRefusal(t, folder, name, directory, answers.disk).None?
    requires Sound(t, RenameFolder(folder, name, directory, answers))
    ensures FindFolder(t.folders, Normalize(folder)) < |t.folders|
    ensures var m := MoveFor(t, folder, name, directory);
            Apart(Rename(t, folder, name, directory, answers).tree.folders) <==> !Collide(t.folders, m.oldDisplay, Final(m))
  {
    RenameAccepted(t, folder, name, directory, answers.disk);
    var f := t.folders[FindFolder(t.folders, Normalize(folder))];
    var m := MoveFor(t, folder, name, directory);
    RenameIsProper(t.folders, f, Trim(name), directory);
    RenamedIsAfter(t, folder, name, directory, answers);
    SoundRename(t, folder, name, directory, answers);
    hide Sound;
    hide Rename;
    hide RenameRefusal;
    hide MoveOf;
    hide Keys;
    hide HasChild;
    hide Normalize;
    hide Display;
    hide Sort;
    hide Final;
    MoveKeepsApart(t.folders, m);
    SortApart(MovedFolders(t.folders, m));
  }

  lemma MoveKeepsApart(folders: seq<Folder>, m: Move)
    requires Unique(folders) && Rooted(folders) && Coherent(folders) && Apart(folders) && Proper(folders, m) && Plain(Final(m))
    ensures Apart(MovedFolders(folders, m)) <==> !Collide(folders, m.oldDisplay, Final(m))
  {
    var ms := MovedFolders(folders, m);
    hide MovedFolder;
    hide Display;
    hide Final;
    hide Plain;
    hide Shown;
    hide HasPath;
    if Collide(folders, m.oldDisplay, Final(m)) {
      var u, v :| u in folders && v in folders && !Below(Display(u), m.oldDisplay) && Below(Display(v), m.oldDisplay) &&
                  Display(u) == Replace(Display(v), m.oldDisplay, Final(m));
      MovedTo(folders, m, u);
      MovedTo(folders, m, v);
      MovedApart(folders, m, u, v);
    } else {
      forall f, g | f in ms && g in ms && Display(f) == Display(g)
        ensures f == g
      {
        var i := MovedIn(folders, m, f);
        var j := MovedIn(folders, m, g);
        MovedSame(folders, m, folders[i], folders[j]);
      }
    }
  }

  lemma MovedApart(folders: seq<Folder>, m: Move, u: Folder, v: Folder)
    requires Unique(folders) && Rooted(folders) && Coherent(folders) && Proper(folders, m) && Plain(Final(m))
    requires u in folders && v in folders && u != v && Display(u) == Replace(Display(v), m.oldDisplay, Final(m))
    requires !Below(Display(u), m.oldDisplay)
    ensures MovedFolder(u, m) != MovedFolder(v, m) && Display(MovedFolder(u, m)) == Display(MovedFolder(v, m))
  {
    MovedParts(u, m);
    MovedParts(v, m);
    AncestryKept(u.path, v.path, m.oldPath, m.newPath);
    AncestryKept(v.path, u.path, m.oldPath, m.newPath);
    hide MovedFolder;
    hide Display;
    hide Final;
    hide Shown;
    hide HasPath;
    assert u.path != v.path;
    assert !(u.path <= v.path && v.path <= u.path);
    hide Plain;
    assert Display(MovedFolder(u, m)) == Replace(Display(u), m.oldDisplay, Final(m)) == Display(u);
    assert !(Replace(u.path, m.oldPath, m.newPath) <= Replace(v.path, m.oldPath, m.newPath) &&
             Replace(v.path, m.oldPath, m.newPath) <= Replace(u.path, m.oldPath, m.newPath));
  }

  lemma SameReplaced(x: Path, y: Path, oldTop: Path, newTop: Path)
    requires Replace(x, oldTop, newTop) == Replace(y, oldTop, newTop) && (oldTop <= x <==> oldTop <= y)
    ensures x == y
  {
    if oldTop != [] && oldTop <= x {
      assert x[|oldTop|..] == (newTop + x[|oldTop|..])[|newTop|..] && y[|oldTop|..] == (newTop + y[|oldTop|..])[|newTop|..];
      assert x == oldTop + x[|oldTop|..] && y == oldTop + y[|oldTop|..];
    }
  }

  lemma MovedSame(folders: seq<Folder>, m: Move, u: Folder, v: Folder)
    requires Rooted(folders) && Coherent(folders) && Apart(folders) && Proper(folders, m) && Plain(Final(m))
    requires !Collide(folders, m.oldDisplay, Final(m)) && u in folders && v in folders
    requires Display(MovedFolder(u, m)) == Display(MovedFolder(v, m))
    ensures u == v
  {
    MovedParts(u, m);
    MovedParts(v, m);
    hide MovedFolder;
    hide Display;
    hide Final;
    hide Shown;
    hide HasPath;
    hide Plain;
    PlainNotEmpty(m.oldDisplay);
    if Below(Display(u), m.oldDisplay) <==> Below(Display(v), m.oldDisplay) {
      SameReplaced(Display(u), Display(v), m.oldDisplay, Final(m));
    }
  }

  lemma DeleteKeepsApart(t: Tree, folder: Path, answers: Answers)
    requires Inv(t) && Apart(t.folders)
    ensures Apart(Delete(t, folder, answers).tree.folders)
  {
    if Deletable(t, folder) && answers.disk {
      GoneFolder(t, folder, t.folders[FindFolder(t.folders, Normalize(folder))]);
      hide Deleted;
      hide Display;
      hide Normalize;
      hide Inv;
    }
  }

  /** An accepted operation leaves display paths apart exactly when the new display path was
      free, or no moved folder arrives at one that stays; a deletion always does. */
  lemma StepKeepsApart(t: Tree, op: Op)
    requires Inv(t) && Apart(t.folders) && (op.DeleteFolder? || Sound(t, op))
    ensures Apart(Outcome(t, op).tree.folders) <==>
            op.DeleteFolder? || Refusal(t, op).Some? || !Arrives(t, op)
  {
    hide Inv;
    hide Apart;
    hide Sound;
    hide Arrives;
    if op.DeleteFolder? {
      DeleteKeepsApart(t, op.folder, op.answers);
      hide Delete;
    } else if Refusal(t, op).Some? {
      ErrorsAre(t, op);
      hide Outcome;
      hide Refusal;
    } else if op.CreateFolder? {
      CreateArrives(t, op);
      hide Outcome;
    } else {
      RenameArrives(t, op);
      hide Outcome;
    }
  }

  lemma CreateArrives(t: Tree, op: Op)
    requires Inv(t) && Apart(t.folders) && op.CreateFolder? && Refusal(t, op).None?
    ensures Apart(Outcome(t, op).tree.folders) <==> !Arrives(t, op)
  {
    CreateKeepsApart(t, op.parent, op.name, op.directory, op.answers);
    hide Create;
    hide ParentPaths;
    hide NewFolder;
    hide HasDisplay;
    hide Display;
    hide Inv;
    hide Apart;
  }

  lemma RenameArrives(t: Tree, op: Op)
    requires Inv(t) && Apart(t.folders) && op.RenameFolder? && Refusal(t, op).None? && Sound(t, op)
    ensures Apart(Outcome(t, op).tree.folders) <==> !Arrives(t, op)
  {
    RenameKeepsApart(t, op.folder, op.name, op.directory, op.answers);
    hide Rename;
    hide MoveFor;
    hide Collide;
    hide Final;
    hide Normalize;
    hide Inv;
    hide Apart;
    hide Sound;
  }

  /** A folder comes to be displayed where another one is. */
  ghost predicate Arrives(t: Tree, op: Op) {
    match op
    case CreateFolder(parent, name, directory, _) =>
      var home := ParentPaths(t.folders, parent);
      home.Some? && HasDisplay(t.folders, Display(NewFolder(t, home.value.0, home.value.1, Trim(name), directory)))
    case RenameFolder(folder, name, directory, _) =>
      FindFolder(t.folders, Normalize(folder)) < |t.folders| &&
      var m := MoveFor(t, folder, name, directory);
      Collide(t.folders, m.oldDisplay, Final(m))
    case DeleteFolder(_, _) => false
  }

  /** The same name under another directory name is enough. */
  lemma NamesakesArise(t: Tree, f: Folder, name: Segment, directory: Segment)
    requires Inv(t) && Apart(t.folders) && f in t.folders && Display(f) == [name]
    requires !HasChild(t.folders, [], directory) && Lower(Trim(directory)) != "environments"
    ensures var r := Create(t, [], name, directory, ALL_WELL);
            r.error.None? && !Apart(r.tree.folders)
  {
    NormalizePlain([]);
    TrimIsTrimmed(name);
    SplitOne(name, '/');
    JoinOne([], name);
    var g := NewFolder(t, [], [], name, directory);
    assert g.displayPath == [name];
    NormalizePlain([name]);
    ShownDisplay(g);
    hide Normalize;
    hide JoinPath;
    hide Display;
    hide Sort;
    hide HasChild;
    hide CountChildren;
    hide Inv;
    assert Create(t, [], name, directory, ALL_WELL).error.None?;
    CreateKeepsApart(t, [], name, directory, ALL_WELL);
  }
}
