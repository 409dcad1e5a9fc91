// The Cookie header: merging the pairs a user wrote with the pairs of the jar.

module CookieHeader {
  import opened Ordering
  import opened Text

  datatype Pair = Pair(name: string, value: string)

  // --- reading and writing -----------------------------------------------------------------------

  /** One part between semicolons; a part without an equals sign or a name is no pair. */
  function ParsePart(part: string): Option<Pair> {
    var t := Trim(part);
    var i := Find(t, '=');
    if i == |t| || Trim(t[..i]) == [] then None else Some(Pair(Trim(t[..i]), Trim(t[i + 1..])))
  }

  function PairsOf(part: string): seq<Pair> {
    var p := ParsePart(part);
    if p.Some? then [p.value] else []
  }

  function ParseParts(parts: seq<string>): seq<Pair> {
    if parts == [] then [] else PairsOf(parts[0]) + ParseParts(parts[1..])
  }

  function Parse(header: string): seq<Pair> {
    ParseParts(Split(header, ';'))
  }

  function RenderPair(p: Pair): string {
    p.name + "=" + p.value
  }

  function Rendered(pairs: seq<Pair>): (r: seq<string>)
    ensures |r| == |pairs|
  {
    seq(|pairs|, i requires 0 <= i < |pairs| => RenderPair(pairs[i]))
  }

  function Render(pairs: seq<Pair>): string {
    Join(Rendered(pairs), "; ")
  }

  /** What a parsed pair looks like. */
  predicate WellFormed(p: Pair) {
    && p.name != [] && Trimmed(p.name) && Trimmed(p.value)
    && '=' !in p.name && ';' !in p.name && ';' !in p.value
  }

  lemma {:induction false} TrimKeepsOut(s: string, c: char)
    requires c !in s
    ensures c !in Trim(s)
  {
    TrimLeftKeepsOut(s, c);
    assert TrimRight(TrimLeft(s)) <= TrimLeft(s);
  }

  lemma {:induction false} TrimLeftKeepsOut(s: string, c: char)
    requires c !in s
    ensures c !in TrimLeft(s)
  {
    if s != [] && IsSpace(s[0]) {
      TrimLeftKeepsOut(s[1..], c);
    }
  }

  lemma ParsedPart(part: string)
    requires ';' !in part && ParsePart(part).Some?
    ensures WellFormed(ParsePart(part).value)
  {
    var t := Trim(part);
    var i := Find(t, '=');
    TrimKeepsOut(part, ';');
    TrimKeepsOut(t[..i], ';');
    TrimKeepsOut(t[..i], '=');
    TrimKeepsOut(t[i + 1..], ';');
    TrimIsTrimmed(t[..i]);
    TrimIsTrimmed(t[i + 1..]);
  }

  lemma {:induction false} ParsedParts(parts: seq<string>)
    requires forall p <- parts :: ';' !in p
    ensures forall p <- ParseParts(parts) :: WellFormed(p)
  {
    if parts != [] {
      ParsedParts(parts[1..]);
      if ParsePart(parts[0]).Some? {
        ParsedPart(parts[0]);
      }
      hide ParsePart;
      hide WellFormed;
    }
  }

  lemma CutPart(t: string, p: Pair)
    requires WellFormed(p) && t == RenderPair(p) && Trim(t) == t
    ensures ParsePart(t) == Some(p)
  {
    assert t == p.name + ['='] + p.value;
    FindAppend(p.name, '=', p.value);
    assert t[..|p.name|] == p.name && t[|p.name| + 1..] == p.value;
    TrimIsTrimmed(p.name);
    TrimIsTrimmed(p.value);
    hide Trim;
    hide Find;
  }

  lemma RenderedIsTrimmed(p: Pair)
    requires WellFormed(p)
    ensures Trimmed(RenderPair(p)) && ';' !in RenderPair(p)
  {
    var t := RenderPair(p);
    hide IsSpace;
    assert !IsSpace('=') by { SpacesAreNot(); }
    assert t[0] == p.name[0];
    assert t[|t| - 1] == if p.value == [] then '=' else p.value[|p.value| - 1];
  }

  lemma SpacesAreNot()
    ensures !IsSpace('=') && IsSpace(' ')
  {
  }

  lemma RenderedPart(p: Pair)
    requires WellFormed(p)
    ensures ParsePart(RenderPair(p)) == Some(p) && ParsePart(" " + RenderPair(p)) == Some(p)
    ensures ';' !in RenderPair(p)
  {
    var t := RenderPair(p);
    RenderedIsTrimmed(p);
    TrimIsTrimmed(t);
    CutPart(t, p);
    SpacesAreNot();
    TrimLeading(' ', t);
    SameTrim(" " + t, t);
  }

  lemma SameTrim(a: string, b: string)
    requires Trim(a) == Trim(b)
    ensures ParsePart(a) == ParsePart(b)
  {
  }

  lemma ParseOne(first: string, p: Pair)
    requires ';' !in first && ParsePart(first) == Some(p)
    ensures Parse(first) == [p]
  {
    SplitOne(first, ';');
    hide ParsePart;
    hide Split;
    ParsePartsCons(first, [], p);
    assert [first] + [] == [first] && [p] + [] == [p];
  }

  lemma ParseNext(first: string, rest: string, p: Pair)
    requires ';' !in first && ParsePart(first) == Some(p)
    ensures Parse(first + [';'] + rest) == [p] + Parse(rest)
  {
    SplitCons(first, ';', rest);
    hide ParsePart;
    hide Split;
    ParsePartsCons(first, Split(rest, ';'), p);
  }

  lemma RenderOne(pairs: seq<Pair>)
    requires |pairs| == 1
    ensures Render(pairs) == RenderPair(pairs[0])
  {
  }

  lemma RenderCons(pairs: seq<Pair>)
    requires |pairs| > 1
    ensures Render(pairs) == RenderPair(pairs[0]) + "; " + Render(pairs[1..])
  {
    assert Rendered(pairs)[1..] == Rendered(pairs[1..]);
  }

  function Lead(spaced: bool, s: string): string {
    if spaced then " " + s else s
  }

  lemma LeadPart(spaced: bool, p: Pair)
    requires WellFormed(p)
    ensures ParsePart(Lead(spaced, RenderPair(p))) == Some(p) && ';' !in Lead(spaced, RenderPair(p))
  {
    RenderedPart(p);
    hide ParsePart;
    hide RenderPair;
    hide WellFormed;
  }

  lemma LeadRegroup(spaced: bool, first: string, rest: string)
    ensures Lead(spaced, first + "; " + rest) == Lead(spaced, first) + [';'] + Lead(true, rest)
  {
    assert "; " == [';'] + " ";
  }

  /** A rendered header, with or without a leading space, reads back as its pairs. */
  lemma {:induction false} RenderedTail(pairs: seq<Pair>, spaced: bool)
    requires pairs != [] && forall p <- pairs :: WellFormed(p)
    ensures Parse(Lead(spaced, Render(pairs))) == pairs
    decreases |pairs|
  {
    var p := pairs[0];
    LeadPart(spaced, p);
    hide ParsePart;
    hide Parse;
    hide RenderPair;
    hide Render;
    hide WellFormed;
    hide Lead;
    if |pairs| == 1 {
      RenderOne(pairs);
      ParseOne(Lead(spaced, RenderPair(p)), p);
      assert pairs == [p];
    } else {
      var rest := pairs[1..];
      forall q <- rest
        ensures WellFormed(q)
      {
        assert q in pairs;
      }
      RenderCons(pairs);
      LeadRegroup(spaced, RenderPair(p), Render(rest));
      ParseNext(Lead(spaced, RenderPair(p)), Lead(true, Render(rest)), p);
      RenderedTail(rest, true);
      assert pairs == [p] + rest;
    }
  }

  lemma ParsePartsCons(first: string, rest: seq<string>, p: Pair)
    requires ParsePart(first) == Some(p)
    ensures ParseParts([first] + rest) == [p] + ParseParts(rest)
  {
    hide ParsePart;
    assert ([first] + rest)[1..] == rest;
  }

  lemma RoundTrip(pairs: seq<Pair>)
    requires forall p <- pairs :: WellFormed(p)
    ensures Parse(Render(pairs)) == pairs
  {
    if pairs == [] {
      assert Split("", ';') == [""];
      assert ParsePart("") == None;
      assert [""][1..] == [];
    } else {
      RenderedTail(pairs, false);
    }
  }

  lemma {:induction false} TrimLeftTrims(s: string)
    ensures Trim(TrimLeft(s)) == Trim(s)
  {
    if s != [] && IsSpace(s[0]) {
      TrimLeftTrims(s[1..]);
      TrimLeading(s[0], s[1..]);
      assert [s[0]] + s[1..] == s;
    }
  }

  lemma {:induction false} TrimRightTrims(s: string)
    ensures Trim(TrimRight(s)) == Trim(s)
  {
    if s != [] && IsSpace(s[|s| - 1]) {
      TrimRightTrims(s[..|s| - 1]);
      TrimTrailing(s[..|s| - 1], s[|s| - 1]);
      assert s[..|s| - 1] + [s[|s| - 1]] == s;
    }
  }

  lemma {:induction false} TrimLeftCut(n: string, rest: string)
    requires rest != [] && !IsSpace(rest[0])
    ensures TrimLeft(n + rest) == TrimLeft(n) + rest
  {
    if n == [] {
      assert n + rest == rest;
    } else if IsSpace(n[0]) {
      assert (n + rest)[1..] == n[1..] + rest;
      TrimLeftCut(n[1..], rest);
    }
  }

  lemma {:induction false} EqualsStays(v: string)
    ensures TrimRight(['='] + v) == ['='] + TrimRight(v)
  {
    SpacesAreNot();
    if v != [] && IsSpace(v[|v| - 1]) {
      assert (['='] + v)[..|v|] == ['='] + v[..|v| - 1];
      EqualsStays(v[..|v| - 1]);
    }
  }

  /** Trimming a part that holds an equals sign trims its ends and keeps the cut. */
  lemma TrimCut(n: string, v: string)
    requires '=' !in n
    ensures var t := Trim(n + "=" + v);
            t == TrimLeft(n) + ['='] + TrimRight(v) && Find(t, '=') == |TrimLeft(n)|
  {
    SpacesAreNot();
    hide IsSpace;
    assert n + "=" + v == n + (['='] + v);
    TrimLeftCut(n, ['='] + v);
    assert TrimLeft(n) + (['='] + v) == TrimLeft(n) + ['='] + v;
    TrimRightAppend(TrimLeft(n), ['='] + v);
    EqualsStays(v);
    assert TrimLeft(n) + (['='] + TrimRight(v)) == TrimLeft(n) + ['='] + TrimRight(v);
    TrimLeftKeepsOut(n, '=');
    FindAppend(TrimLeft(n), '=', TrimRight(v));
    hide TrimLeft;
    hide TrimRight;
    hide Find;
  }

  /** A part is a pair exactly when an equals sign stands behind a name; the first one cuts,
      and both sides are trimmed. */
  lemma PartIsPair(part: string, p: Pair)
    ensures ParsePart(part) == Some(p) <==>
            exists n: string, v: string :: part == n + "=" + v && '=' !in n && Trim(n) != [] && p == Pair(Trim(n), Trim(v))
  {
    if '=' in part {
      var j := Find(part, '=');
      var n, v := part[..j], part[j + 1..];
      assert part == n + "=" + v;
      CutIs(n, v);
      hide ParsePart;
      hide Trim;
      hide Find;
      forall m: string, w: string | part == m + "=" + w && '=' !in m
        ensures m == n && w == v
      {
        CutOnce(m, w);
        CutOnce(n, v);
      }
    } else {
      TrimKeepsOut(part, '=');
      forall m: string, w: string
        ensures part != m + "=" + w
      {
        assert (m + "=" + w)[|m|] == '=';
      }
    }
    hide ParsePart;
    hide Trim;
  }

  lemma CutOnce(n: string, v: string)
    requires '=' !in n
    ensures var s := n + "=" + v; Find(s, '=') == |n| && s[..|n|] == n && s[|n| + 1..] == v
  {
    FindAppend(n, '=', v);
    hide Find;
  }

  lemma CutIs(n: string, v: string)
    requires '=' !in n
    ensures ParsePart(n + "=" + v) == if Trim(n) == [] then None else Some(Pair(Trim(n), Trim(v)))
  {
    TrimCut(n, v);
    TrimLeftTrims(n);
    TrimRightTrims(v);
    var t := Trim(n + "=" + v);
    hide Trim;
    hide Find;
    assert t[..|TrimLeft(n)|] == TrimLeft(n) && t[|TrimLeft(n)| + 1..] == TrimRight(v);
  }

  // --- merging -----------------------------------------------------------------------------------

  /** Pairs by name in lower case, and the names in first-seen order. */
  datatype Merge = Merge(order: seq<string>, values: map<string, Pair>)

  function AddPair(m: Merge, p: Pair): Merge {
    var key := Lower(p.name);
    Merge(if key in m.values then m.order else m.order + [key], m.values[key := p])
  }

  function AddPairs(m: Merge, pairs: seq<Pair>): Merge {
    if pairs == [] then m else AddPair(AddPairs(m, pairs[..|pairs| - 1]), pairs[|pairs| - 1])
  }

  ghost predicate Indexed(m: Merge) {
    && Distinct(m.order)
    && (forall k :: k in m.order <==> k in m.values)
    && (forall k <- m.values :: Lower(m.values[k].name) == k)
  }

  function Pairs(m: Merge): (r: seq<Pair>)
    requires forall k <- m.order :: k in m.values
    ensures |r| == |m.order|
  {
    seq(|m.order|, i requires 0 <= i < |m.order| => m.values[m.order[i]])
  }

  const EMPTY: Merge := Merge([], map[])

  function MergedPairs(manual: string, stored: string): Merge {
    AddPairs(AddPairs(EMPTY, Parse(manual)), Parse(stored))
  }

  function MergeHeader(manual: string, stored: string): string
  {
    IndexedMerge(manual, stored);
    Render(Pairs(MergedPairs(manual, stored)))
  }

  lemma {:induction false} AddKeepsIndexed(m: Merge, pairs: seq<Pair>)
    requires Indexed(m)
    ensures Indexed(AddPairs(m, pairs))
  {
    if pairs != [] {
      AddKeepsIndexed(m, pairs[..|pairs| - 1]);
      hide Lower;
    }
  }

  lemma IndexedMerge(manual: string, stored: string)
    ensures Indexed(MergedPairs(manual, stored))
  {
    AddKeepsIndexed(EMPTY, Parse(manual));
    AddKeepsIndexed(AddPairs(EMPTY, Parse(manual)), Parse(stored));
  }

  lemma {:induction false} AddKeepsWellFormed(m: Merge, pairs: seq<Pair>)
    requires (forall k <- m.values :: WellFormed(m.values[k])) && (forall p <- pairs :: WellFormed(p))
    ensures forall k <- AddPairs(m, pairs).values :: WellFormed(AddPairs(m, pairs).values[k])
  {
    if pairs != [] {
      AddKeepsWellFormed(m, pairs[..|pairs| - 1]);
      assert pairs[|pairs| - 1] in pairs;
      hide WellFormed;
      hide Lower;
    }
  }

  /** The merged header reads back as exactly the merged pairs, in order. */
  lemma MergeReadsBack(manual: string, stored: string)
    ensures Indexed(MergedPairs(manual, stored))
    ensures Parse(MergeHeader(manual, stored)) == Pairs(MergedPairs(manual, stored))
  {
    IndexedMerge(manual, stored);
    ParsedParts(Split(manual, ';'));
    ParsedParts(Split(stored, ';'));
    AddKeepsWellFormed(EMPTY, Parse(manual));
    AddKeepsWellFormed(AddPairs(EMPTY, Parse(manual)), Parse(stored));
    RoundTrip(Pairs(MergedPairs(manual, stored)));
  }

  // --- which pair wins, and where it stands ------------------------------------------------------

  /** The last pair of a name, ignoring case. */
  function LastNamed(pairs: seq<Pair>, key: string): Option<Pair> {
    if pairs == [] then None
    else if Lower(pairs[|pairs| - 1].name) == key then Some(pairs[|pairs| - 1])
    else LastNamed(pairs[..|pairs| - 1], key)
  }

  /** The lower-case names in first-seen order. */
  function FirstSeen(pairs: seq<Pair>): seq<string> {
    if pairs == [] then []
    else
      var before := FirstSeen(pairs[..|pairs| - 1]);
      var key := Lower(pairs[|pairs| - 1].name);
      if key in before then before else before + [key]
  }

  lemma AddNext(m: Merge, pairs: seq<Pair>, p: Pair)
    ensures AddPairs(m, pairs + [p]) == AddPair(AddPairs(m, pairs), p)
  {
    assert (pairs + [p])[..|pairs|] == pairs;
  }

  lemma {:induction false} AddAppend(m: Merge, a: seq<Pair>, b: seq<Pair>)
    ensures AddPairs(m, a + b) == AddPairs(AddPairs(m, a), b)
  {
    if b == [] {
      assert a + b == a;
    } else {
      var n := |b| - 1;
      AddNext(m, a + b[..n], b[n]);
      AddAppend(m, a, b[..n]);
      AddNext(AddPairs(m, a), b[..n], b[n]);
      hide AddPairs;
      hide AddPair;
      assert b == b[..n] + [b[n]];
      assert a + b == a + b[..n] + [b[n]];
    }
  }

  lemma {:induction false} AddedFromEmpty(pairs: seq<Pair>)
    ensures AddPairs(EMPTY, pairs).order == FirstSeen(pairs)
    ensures forall k :: (k in AddPairs(EMPTY, pairs).values <==> LastNamed(pairs, k).Some?)
    ensures forall k <- AddPairs(EMPTY, pairs).values :: LastNamed(pairs, k) == Some(AddPairs(EMPTY, pairs).values[k])
  {
    AddKeepsIndexed(EMPTY, pairs);
    if pairs != [] {
      AddedFromEmpty(pairs[..|pairs| - 1]);
      AddKeepsIndexed(EMPTY, pairs[..|pairs| - 1]);
      hide Lower;
    }
  }

  lemma PairAt(m: Merge, i: nat)
    requires Indexed(m) && i < |m.order|
    ensures Pairs(m)[i] == m.values[m.order[i]] && Lower(Pairs(m)[i].name) == m.order[i]
  {
    assert m.order[i] in m.order;
  }

  /** Names are unique ignoring case and stand where they were first seen; the stored pair
      of a name wins over the manual one, and the last of a header over those before. */
  lemma MergeOrder(manual: string, stored: string, i: nat)
    requires i < |Parse(MergeHeader(manual, stored))|
    ensures var merged, all := Parse(MergeHeader(manual, stored)), Parse(manual) + Parse(stored);
            && |merged| == |FirstSeen(all)|
            && Lower(merged[i].name) == FirstSeen(all)[i]
            && LastNamed(all, FirstSeen(all)[i]) == Some(merged[i])
            && (forall j :: 0 <= j < |merged| && j != i ==> Lower(merged[j].name) != Lower(merged[i].name))
  {
    var m := MergedPairs(manual, stored);
    MergeReadsBack(manual, stored);
    AddAppend(EMPTY, Parse(manual), Parse(stored));
    AddedFromEmpty(Parse(manual) + Parse(stored));
    hide Parse;
    hide MergeHeader;
    hide LastNamed;
    hide FirstSeen;
    hide AddPairs;
    hide Lower;
    PairAt(m, i);
    assert m.order[i] in m.values;
    forall j | 0 <= j < |m.order|
      ensures Lower(Pairs(m)[j].name) == m.order[j]
    {
      PairAt(m, j);
    }
    hide Pairs;
    hide MergedPairs;
  }

  lemma {:induction false} StoredWins(a: seq<Pair>, b: seq<Pair>, key: string)
    ensures LastNamed(a + b, key) == if LastNamed(b, key).Some? then LastNamed(b, key) else LastNamed(a, key)
  {
    if b == [] {
      assert a + b == a;
    } else {
      assert (a + b)[..|a| + |b| - 1] == a + b[..|b| - 1];
      StoredWins(a, b[..|b| - 1], key);
    }
  }

  // --- merging the same header again ---------------------------------------------------------------

  lemma {:induction false} AddKnown(m: Merge, pairs: seq<Pair>)
    requires forall p <- pairs :: Lower(p.name) in m.values
    ensures AddPairs(m, pairs).order == m.order
    ensures AddPairs(m, pairs).values.Keys == m.values.Keys
  {
    if pairs != [] {
      AddKnown(m, pairs[..|pairs| - 1]);
      assert pairs[|pairs| - 1] in pairs;
      hide Lower;
    }
  }

  lemma AddOneValue(m: Merge, base: map<string, Pair>, added: map<string, Pair>, p: Pair)
    requires m.values == base + added
    ensures AddPair(m, p).values == base + added[Lower(p.name) := p]
  {
  }

  lemma {:induction false} AddValues(m: Merge, pairs: seq<Pair>)
    ensures AddPairs(m, pairs).values == m.values + AddPairs(EMPTY, pairs).values
  {
    if pairs == [] {
      assert m.values + map[] == m.values;
    } else {
      var n := |pairs| - 1;
      AddValues(m, pairs[..n]);
      AddOneValue(AddPairs(m, pairs[..n]), m.values, AddPairs(EMPTY, pairs[..n]).values, pairs[n]);
      hide Lower;
    }
  }

  lemma {:induction false} AddedAreKnown(m: Merge, pairs: seq<Pair>)
    ensures m.values.Keys <= AddPairs(m, pairs).values.Keys
    ensures forall p <- pairs :: Lower(p.name) in AddPairs(m, pairs).values
  {
    if pairs != [] {
      var n := |pairs| - 1;
      AddedAreKnown(m, pairs[..n]);
      assert pairs == pairs[..n] + [pairs[n]];
      hide Lower;
    }
  }

  lemma PairsNext(m: Merge, n: nat)
    requires Indexed(m) && n < |m.order|
    ensures Pairs(m)[..n + 1] == Pairs(m)[..n] + [m.values[m.order[n]]]
    ensures m.order[n] in m.values && Lower(m.values[m.order[n]].name) == m.order[n]
    ensures m.order[n] !in m.order[..n]
  {
    assert m.order[n] in m.order;
    assert Pairs(m)[n] == m.values[m.order[n]];
  }

  /** Adding the pairs of a merge, in order, to nothing gives the merge back. */
  lemma {:induction false} Rebuilt(m: Merge, n: nat)
    requires Indexed(m) && n <= |m.order|
    ensures var r := AddPairs(EMPTY, Pairs(m)[..n]);
            && r.order == m.order[..n]
            && (forall k :: k in r.values <==> k in m.order[..n])
            && (forall k <- r.values :: r.values[k] == m.values[k])
  {
    if n > 0 {
      hide AddPairs;
      hide Pairs;
      hide Lower;
      Rebuilt(m, n - 1);
      PairsNext(m, n - 1);
      AddNext(EMPTY, Pairs(m)[..n - 1], m.values[m.order[n - 1]]);
      assert m.order[..n] == m.order[..n - 1] + [m.order[n - 1]];
    }
  }

  lemma RebuiltWhole(m: Merge)
    requires Indexed(m)
    ensures AddPairs(EMPTY, Pairs(m)) == m
  {
    hide AddPairs;
    var n := |m.order|;
    assert Pairs(m)[..n] == Pairs(m) && m.order[..n] == m.order;
    hide Pairs;
    Rebuilt(m, n);
    hide Distinct;
    assert AddPairs(EMPTY, Pairs(m)).values == m.values;
  }

  lemma AddTwice(before: Merge, s: seq<Pair>)
    ensures AddPairs(AddPairs(before, s), s) == AddPairs(before, s)
  {
    var m := AddPairs(before, s);
    AddValues(before, s);
    AddedAreKnown(before, s);
    AddKnown(m, s);
    AddValues(m, s);
    hide AddPairs;
    var added := AddPairs(EMPTY, s).values;
    assert (before.values + added) + added == before.values + added;
  }

  /** Merging the same stored header again changes nothing. */
  lemma MergeTwice(manual: string, stored: string)
    ensures MergeHeader(MergeHeader(manual, stored), stored) == MergeHeader(manual, stored)
  {
    var m := MergedPairs(manual, stored);
    MergeReadsBack(manual, stored);
    RebuiltWhole(m);
    AddTwice(AddPairs(EMPTY, Parse(manual)), Parse(stored));
    IndexedMerge(MergeHeader(manual, stored), stored);
    assert MergedPairs(MergeHeader(manual, stored), stored) == m by {
      hide MergeHeader;
      hide Parse;
      hide AddPairs;
      hide Pairs;
    }
    SamePairs(MergeHeader(manual, stored), manual, stored);
  }

  lemma SamePairs(a: string, b: string, stored: string)
    requires MergedPairs(a, stored) == MergedPairs(b, stored)
    ensures MergeHeader(a, stored) == MergeHeader(b, stored)
  {
    hide MergedPairs;
    hide Render;
  }

  // --- as the source runs it ---------------------------------------------------------------------

  method AddHeader(m: Merge, header: string) returns (r: Merge)
    ensures r == AddPairs(m, Parse(header))
  {
    var order, values := m.order, m.values;
    var parts := Split(header, ';');
    ghost var pairs: seq<Pair> := [];
    for i := 0 to |parts|
      invariant pairs == ParseParts(parts[..i])
      invariant Merge(order, values) == AddPairs(m, pairs)
    {
      ParsePartsNext(parts, i);
      var part := Trim(parts[i]);
      var cut := Find(part, '=');
      var name := Trim(part[..cut]);
      hide Trim;
      hide ParseParts;
      if cut == |part| || name == [] {
        continue;
      }
      var key := Lower(name);
      if key !in values {
        order := order + [key];
      }
      values := values[key := Pair(name, Trim(part[cut + 1..]))];
      AddNext(m, pairs, Pair(name, Trim(part[cut + 1..])));
      pairs := pairs + [Pair(name, Trim(part[cut + 1..]))];
    }
    assert parts[..|parts|] == parts;
    r := Merge(order, values);
  }

  lemma ParsePartsNext(parts: seq<string>, i: nat)
    requires i < |parts|
    ensures ParseParts(parts[..i + 1]) == ParseParts(parts[..i]) + PairsOf(parts[i])
  {
    assert parts[..i + 1] == parts[..i] + [parts[i]];
    ParsePartsSnoc(parts[..i], parts[i]);
  }

  lemma {:induction false} ParsePartsSnoc(parts: seq<string>, x: string)
    ensures ParseParts(parts + [x]) == ParseParts(parts) + PairsOf(x)
  {
    hide PairsOf;
    if parts == [] {
      assert parts + [x] == [x] && [x][1..] == [];
    } else {
      ParsePartsSnoc(parts[1..], x);
      assert (parts + [x])[1..] == parts[1..] + [x];
      assert PairsOf(parts[0]) + (ParseParts(parts[1..]) + PairsOf(x)) == PairsOf(parts[0]) + ParseParts(parts[1..]) + PairsOf(x);
    }
  }

  method MergeCookieHeaders(manual: string, stored: string) returns (header: string)
    ensures header == MergeHeader(manual, stored)
  {
    var m := AddHeader(EMPTY, manual);
    m := AddHeader(m, stored);
    IndexedMerge(manual, stored);
    hide AddPairs;
    hide Parse;
    hide Lower;
    hide Join;
    hide Distinct;
    var parts := [];
    for i := 0 to |m.order|
      invariant parts == Rendered(Pairs(m))[..i]
    {
      var pair := m.values[m.order[i]];
      parts := parts + [pair.name + "=" + pair.value];
    }
    assert Rendered(Pairs(m))[..|m.order|] == Rendered(Pairs(m));
    header := Join(parts, "; ");
  }
}
