// Folder paths as the pieces between their slashes: cleaning, normalising and joining them.

module Paths {
  import opened Text

  /** A path as its pieces: what stands between the slashes of its text. */
  type Path = seq<string>

  function Parent(p: Path): Path {
    if p == [] then [] else p[..|p| - 1]
  }

  predicate Below(p: Path, top: Path) {
    top <= p
  }

  // --- normalisation -------------------------------------------------------------------------

  /** A name that stays as it is wherever it stands in a path. */
  predicate IsSegment(s: string) {
    s != [] && '/' !in s && Trimmed(s) && s != "." && s != ".."
  }

  type Segment = s: string | IsSegment(s) witness "a"

  predicate Plain(p: Path) {
    p != [] && forall i :: 0 <= i < |p| ==> IsSegment(p[i])
  }

  function Pieces(text: string): Path {
    Split(text, '/')
  }

  /** strings.TrimSpace of the text: only its first and last piece are touched. */
  function TrimEnds(p: Path): (r: Path)
    ensures |r| == |p|
  {
    if p == [] then []
    else
      var q := p[0 := TrimLeft(p[0])];
      q[|q| - 1 := TrimRight(q[|q| - 1])]
  }

  function DropFront(p: Path): Path {
    if p != [] && p[0] == [] then DropFront(p[1..]) else p
  }

  function DropBack(p: Path): Path {
    if p != [] && p[|p| - 1] == [] then DropBack(p[..|p| - 1]) else p
  }

  /** strings.Trim of the text's slashes. */
  function StripSlashes(p: Path): Path {
    DropBack(DropFront(p))
  }

  /** filepath.Clean of a relative path; nothing left stands for ".". */
  function Clean(p: Path): Path {
    if p == [] then []
    else
      var c, s := Clean(p[..|p| - 1]), p[|p| - 1];
      if s == "" || s == "." then c
      else if s == ".." && c != [] && c[|c| - 1] != ".." then c[..|c| - 1]
      else c + [s]
  }

  /** The key of a path; one that cleans to nothing or to a path upwards keeps its text. */
  function Normalize(p: Path): Path {
    var v := StripSlashes(TrimEnds(p));
    var c := Clean(v);
    if c == [] || c[0] == ".." then v else c
  }

  lemma {:induction false} CleanPlain(p: Path)
    requires forall i :: 0 <= i < |p| ==> IsSegment(p[i])
    ensures Clean(p) == p
  {
    if p != [] {
      var n := |p| - 1;
      CleanPlain(p[..n]);
      assert IsSegment(p[n]) && p[..n] + [p[n]] == p;
      hide Trimmed;
    }
  }

  lemma StripPlain(p: Path)
    requires p != [] && p[0] != [] && p[|p| - 1] != []
    ensures StripSlashes(p) == p
  {
  }

  lemma TrimPlain(p: Path)
    requires p != [] && Trimmed(p[0]) && Trimmed(p[|p| - 1])
    ensures TrimEnds(p) == p
  {
    TrimIsTrimmed(p[0]);
    TrimIsTrimmed(p[|p| - 1]);
    assert TrimLeft(p[0]) == p[0] && TrimRight(p[|p| - 1]) == p[|p| - 1];
  }

  lemma NormalizePlain(p: Path)
    requires p == [] || Plain(p)
    ensures Normalize(p) == p
  {
    if p != [] {
      assert IsSegment(p[0]) && IsSegment(p[|p| - 1]);
      TrimPlain(p);
      StripPlain(p);
      CleanPlain(p);
    }
  }

  /** A blank text has no key. */
  predicate Blank(p: Path) {
    p == [] || (|p| == 1 && Trim(p[0]) == [])
  }

  lemma BlankIsEmpty(p: Path)
    requires Blank(p)
    ensures Normalize(p) == []
  {
    if p != [] {
      assert TrimEnds(p) == [Trim(p[0])];
      assert StripSlashes([[]]) == [];
    }
  }

  lemma PlainNotEmpty(p: Path)
    requires Plain(p)
    ensures p != []
  {
  }

  lemma PlainPrefix(p: Path, n: nat)
    requires Plain(p) && n <= |p|
    ensures p[..n] == [] || Plain(p[..n])
  {
  }

  lemma PlainJoin(p: Path, q: Path)
    requires (p == [] || Plain(p)) && (forall i :: 0 <= i < |q| ==> IsSegment(q[i])) && p + q != []
    ensures Plain(p + q)
  {
  }

  // --- joining -------------------------------------------------------------------------------

  function JoinPath(parent: Path, child: Path): Path {
    Normalize(parent) + StripSlashes(child)
  }

  /** filepath.Dir of a key, normalised again. */
  function ParentPath(p: Path): Path {
    var q := Normalize(p);
    Normalize(if q == [] then [] else Clean(q[..|q| - 1]))
  }

  lemma ParentOfPlain(p: Path)
    requires Plain(p)
    ensures ParentPath(p) == Parent(p) && (Parent(p) == [] || Plain(Parent(p)))
  {
    NormalizePlain(p);
    PlainPrefix(p, |p| - 1);
    CleanPlain(p[..|p| - 1]);
    NormalizePlain(p[..|p| - 1]);
    hide Normalize;
    hide Clean;
  }

  lemma JoinOne(parent: Path, s: Segment)
    requires parent == [] || Plain(parent)
    ensures JoinPath(parent, [s]) == parent + [s] && Plain(parent + [s])
  {
    NormalizePlain(parent);
    StripPlain([s]);
    PlainJoin(parent, [s]);
    hide Normalize;
    hide StripSlashes;
  }

  /** The pieces of a name that count. */
  function NonEmpty(p: Path): Path {
    if p == [] then [] else NonEmpty(p[..|p| - 1]) + if p[|p| - 1] == [] then [] else [p[|p| - 1]]
  }

  lemma {:induction false} NonEmptyFront(p: Path)
    requires p != [] && p[0] == []
    ensures NonEmpty(p[1..]) == NonEmpty(p)
  {
    if |p| > 1 {
      NonEmptyFront(p[..|p| - 1]);
      assert p[1..][..|p| - 2] == p[..|p| - 1][1..];
    } else {
      assert p[1..] == [] && p[..0] == [];
    }
  }

  lemma {:induction false} DropFrontKeeps(p: Path)
    ensures NonEmpty(DropFront(p)) == NonEmpty(p)
    ensures forall s <- DropFront(p) :: s in p
    ensures DropFront(p) == [] || DropFront(p)[0] != []
  {
    if p != [] && p[0] == [] {
      NonEmptyFront(p);
      DropFrontKeeps(p[1..]);
    }
  }

  lemma {:induction false} DropBackKeeps(p: Path)
    ensures NonEmpty(DropBack(p)) == NonEmpty(p)
    ensures forall s <- DropBack(p) :: s in p
    ensures DropBack(p) == [] || DropBack(p)[|DropBack(p)| - 1] != []
    ensures DropBack(p) <= p
  {
    if p != [] && p[|p| - 1] == [] {
      DropBackKeeps(p[..|p| - 1]);
    }
  }

  lemma StripKeeps(p: Path)
    ensures NonEmpty(StripSlashes(p)) == NonEmpty(p)
    ensures forall s <- StripSlashes(p) :: s in p
    ensures var r := StripSlashes(p); r == [] || (r[0] != [] && r[|r| - 1] != [])
  {
    DropFrontKeeps(p);
    DropBackKeeps(DropFront(p));
    hide NonEmpty;
  }

  lemma CleanSnoc(p: Path, s: string)
    ensures s == [] ==> Clean(p + [s]) == Clean(p)
    ensures IsSegment(s) ==> Clean(p + [s]) == Clean(p) + [s]
  {
    assert (p + [s])[..|p|] == p;
    hide Trimmed;
  }

  lemma {:induction false} CleanNames(p: Path, q: Path)
    requires (p == [] || Plain(p)) && forall s <- q :: s == [] || IsSegment(s)
    ensures Clean(p + q) == p + NonEmpty(q)
    ensures forall i :: 0 <= i < |NonEmpty(q)| ==> IsSegment(NonEmpty(q)[i])
    decreases |q|
  {
    hide IsSegment;
    hide Clean;
    if q == [] {
      CleanPlain(p);
      assert p + q == p;
    } else {
      var n := |q| - 1;
      CleanNames(p, q[..n]);
      CleanSnoc(p + q[..n], q[n]);
      assert (p + q[..n]) + [q[n]] == p + q;
      assert q[n] in q;
    }
  }

  /** Names made of segments and slashes join as one expects. */
  lemma GoodName(parent: Path, child: Path)
    requires parent == [] || Plain(parent)
    requires (forall s <- child :: s == [] || IsSegment(s)) && NonEmpty(child) != []
    ensures Normalize(JoinPath(parent, child)) == parent + NonEmpty(child) && Plain(parent + NonEmpty(child))
  {
    var c := StripSlashes(child);
    StripKeeps(child);
    NormalizePlain(parent);
    var raw := parent + c;
    assert JoinPath(parent, child) == raw;
    assert c != [] && c[0] in c && c[|c| - 1] in c;
    assert parent != [] ==> IsSegment(parent[0]);
    assert IsSegment(raw[0]) && IsSegment(raw[|raw| - 1]);
    hide StripSlashes;
    hide NonEmpty;
    TrimPlain(raw);
    StripPlain(raw);
    CleanNames(parent, c);
    PlainJoin(parent, NonEmpty(c));
    assert IsSegment((parent + NonEmpty(c))[0]);
  }

  /** A name of two dots leads to the parent's own parent, one dot to the parent itself. */
  lemma DotNames(parent: Path)
    requires Plain(parent)
    ensures |parent| > 1 ==> Normalize(JoinPath(parent, [".."])) == Parent(parent)
    ensures Normalize(JoinPath(parent, ["."])) == parent
  {
    NormalizePlain(parent);
    assert IsSegment(parent[0]) && IsSegment(parent[|parent| - 1]);
    assert Trimmed("..") && Trimmed(".") by { SpacesApart(); }
    StripPlain([".."]);
    StripPlain(["."]);
    TrimPlain(parent + [".."]);
    StripPlain(parent + [".."]);
    TrimPlain(parent + ["."]);
    StripPlain(parent + ["."]);
    CleanPlain(parent);
    assert (parent + [".."])[..|parent|] == parent && (parent + ["."])[..|parent|] == parent;
    hide TrimEnds;
    hide StripSlashes;
  }

  lemma SpacesApart()
    ensures !IsSpace('.')
  {
  }
}
