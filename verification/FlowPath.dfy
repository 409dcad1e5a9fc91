// The paths flows read values with: $.key, [index] and ["key"], chained; parsing them,
// printing them back, and walking a JSON document.

module FlowPath {
  import opened Text

  datatype Segment = Key(key: string) | Index(index: nat)

  datatype Reason =
    | Required | NoDollar | RecursiveDescent | EmptyKey | Wildcard | Unclosed | EmptySubscript
    | Subscript | Unsupported | WholeDocument

  datatype Parsed = Segments(segments: seq<Segment>) | Rejected(reason: Reason)

  // --- parsing -------------------------------------------------------------------------------------

  /** The largest int of the 64-bit platforms. */
  const MAX_INT: int := 0x7fff_ffff_ffff_ffff

  /** strconv.Atoi: an optional sign and decimal digits, in 64 bits. */
  function Atoi(s: string): Option<int> {
    var signed := s != [] && (s[0] == '+' || s[0] == '-');
    var digits := if signed then s[1..] else s;
    if digits == [] || !AllDigits(digits) then None
    else
      var n: int := Number(digits);
      var value := if signed && s[0] == '-' then -n else n;
      if -MAX_INT - 1 <= value <= MAX_INT then Some(value) else None
  }

  predicate EndsName(c: char) {
    c == '.' || c == '['
  }

  /** strings.IndexAny(s, ".["), or the length. */
  function NameEnd(s: string): (i: nat)
    ensures i <= |s|
    ensures i < |s| ==> EndsName(s[i])
    ensures forall k :: 0 <= k < i ==> !EndsName(s[k])
  {
    if s == [] || EndsName(s[0]) then 0 else 1 + NameEnd(s[1..])
  }

  function Unquote(inner: string): Option<string> {
    if |inner| >= 2 && (inner[0] == '"' || inner[0] == '\'') && inner[|inner| - 1] == inner[0]
    then Some(inner[1..|inner| - 1])
    else None
  }

  function ParseSubscript(text: string): Parsed {
    var inner := Trim(text);
    if inner == [] then Rejected(EmptySubscript)
    else if Unquote(inner).Some? then Segments([Key(Unquote(inner).value)])
    else
      var n := Atoi(inner);
      if n.None? || n.value < 0 then Rejected(Subscript) else Segments([Index(n.value)])
  }

  function Then(first: Parsed, rest: Parsed): Parsed {
    if first.Rejected? then first
    else if rest.Rejected? then rest
    else Segments(first.segments + rest.segments)
  }

  function ParseName(name: string): Parsed {
    if name == [] then Rejected(EmptyKey)
    else if name == "*" then Rejected(Wildcard)
    else Segments([Key(name)])
  }

  /** The segments of what follows the dollar, the first error winning. */
  function ParseRest(rest: string): Parsed
    decreases |rest|
  {
    if rest == [] then Segments([])
    else if rest[0] == '.' then
      var end := NameEnd(rest[1..]);
      Then(ParseName(rest[1..][..end]), ParseRest(rest[1..][end..]))
    else if rest[0] == '[' then
      var end := Find(rest, ']');
      if end == |rest| then Rejected(Unclosed)
      else Then(ParseSubscript(rest[1..][..end - 1]), ParseRest(rest[end + 1..]))
    else Rejected(Unsupported)
  }

  function Parse(path: string): Parsed {
    var t := Trim(path);
    if t == [] then Rejected(Required)
    else if t[0] != '$' then Rejected(NoDollar)
    else if "$.." <= t then Rejected(RecursiveDescent)
    else
      var r := ParseRest(t[1..]);
      if r == Segments([]) then Rejected(WholeDocument) else r
  }

  // --- printing ------------------------------------------------------------------------------------

  function RenderOne(s: Segment): string {
    if s.Key? then "." + s.key else "[" + Digits(s.index) + "]"
  }

  function Render(segments: seq<Segment>): string {
    if segments == [] then "" else RenderOne(segments[0]) + Render(segments[1..])
  }

  function RenderPath(segments: seq<Segment>): string {
    "$" + Render(segments)
  }

  predicate PlainName(name: string) {
    name != [] && name != "*" && forall i :: 0 <= i < |name| ==> !EndsName(name[i])
  }

  predicate Printable(s: Segment) {
    if s.Key? then PlainName(s.key) else s.index <= MAX_INT
  }

  // --- reading back what was printed ---------------------------------------------------------------

  lemma NumberDigitsMax(n: nat)
    ensures Atoi(Digits(n)) == if n <= MAX_INT then Some(n) else None
  {
    NumberOfDigits(n);
    assert IsDigit(Digits(n)[0]) by { assert Digits(n)[0] in Digits(n); }
  }

  lemma DigitsTrimmed(n: nat)
    ensures Trim(Digits(n)) == Digits(n) && Unquote(Digits(n)).None? && ']' !in Digits(n) && Digits(n) != []
  {
    var s := Digits(n);
    assert forall i :: 0 <= i < |s| ==> IsDigit(s[i]) by {
      forall i | 0 <= i < |s| ensures IsDigit(s[i]) { assert s[i] in s; }
    }
    assert IsDigit(s[0]) && IsDigit(s[|s| - 1]);
    assert !IsSpace(s[0]) && !IsSpace(s[|s| - 1]);
    TrimIsTrimmed(s);
  }

  lemma SubscriptOfIndex(n: nat)
    ensures ParseSubscript(Digits(n)) == if n <= MAX_INT then Segments([Index(n)]) else Rejected(Subscript)
  {
    NumberDigitsMax(n);
    DigitsTrimmed(n);
    hide Atoi;
    hide Digits;
    hide Trim;
    hide Unquote;
  }

  lemma NameEndAt(name: string, rest: string)
    requires (forall i :: 0 <= i < |name| ==> !EndsName(name[i])) && (rest == [] || EndsName(rest[0]))
    ensures NameEnd(name + rest) == |name|
  {
    var s := name + rest;
    assert forall i :: 0 <= i < |name| ==> s[i] == name[i];
    assert rest != [] ==> s[|name|] == rest[0];
  }

  lemma RenderStarts(segments: seq<Segment>)
    requires segments != []
    ensures Render(segments) != [] && EndsName(Render(segments)[0])
  {
  }

  lemma DotHead(name: string)
    ensures var end := NameEnd(name);
            ParseRest("." + name) == Then(ParseName(name[..end]), ParseRest(name[end..]))
  {
    hide NameEnd;
    hide ParseName;
    assert ("." + name)[1..] == name;
  }

  lemma ParseKeyHead(key: string, rest: string)
    requires PlainName(key) && (rest == [] || EndsName(rest[0]))
    ensures ParseRest("." + key + rest) == Then(Segments([Key(key)]), ParseRest(rest))
  {
    NameEndAt(key, rest);
    assert ParseName(key) == Segments([Key(key)]);
    hide NameEnd;
    hide EndsName;
    hide ParseName;
    hide ParseRest;
    hide Then;
    DotHead(key + rest);
    assert "." + key + rest == "." + (key + rest);
    assert (key + rest)[..|key|] == key && (key + rest)[|key|..] == rest;
  }

  lemma ParseIndexHead(index: nat, rest: string)
    requires index <= MAX_INT
    ensures ParseRest("[" + Digits(index) + "]" + rest) == Then(Segments([Index(index)]), ParseRest(rest))
  {
    var d := Digits(index);
    DigitsTrimmed(index);
    SubscriptOfIndex(index);
    hide Digits;
    hide ParseSubscript;
    var t := "[" + d + "]" + rest;
    assert t == ("[" + d) + [']'] + rest;
    FindAppend("[" + d, ']', rest);
    hide Find;
    assert t[0] == '[' && t[1..][..|d|] == d && t[|d| + 2..] == rest;
  }

  /** One printed segment in front of the rest. */
  lemma ParseHead(s: Segment, rest: string)
    requires Printable(s) && (rest == [] || EndsName(rest[0]))
    ensures ParseRest(RenderOne(s) + rest) == Then(Segments([s]), ParseRest(rest))
  {
    hide ParseRest;
    hide Digits;
    if s.Key? {
      ParseKeyHead(s.key, rest);
    } else {
      ParseIndexHead(s.index, rest);
    }
  }

  lemma ParseCons(s: Segment, rest: string, tail: seq<Segment>)
    requires Printable(s) && (rest == [] || EndsName(rest[0])) && ParseRest(rest) == Segments(tail)
    ensures ParseRest(RenderOne(s) + rest) == Segments([s] + tail)
  {
    ParseHead(s, rest);
    hide ParseRest;
    hide RenderOne;
  }

  lemma RenderedStart(segments: seq<Segment>)
    ensures Render(segments) == [] || EndsName(Render(segments)[0])
  {
    if segments != [] {
      RenderStarts(segments);
    }
  }

  lemma Rejoined(segments: seq<Segment>)
    requires segments != []
    ensures [segments[0]] + segments[1..] == segments
  {
  }

  lemma {:induction false} ParseRendered(segments: seq<Segment>)
    requires forall s <- segments :: Printable(s)
    ensures ParseRest(Render(segments)) == Segments(segments)
    decreases |segments|
  {
    if segments != [] {
      var s, rest := segments[0], segments[1..];
      assert s in segments && forall r <- rest :: r in segments;
      assert Render(segments) == RenderOne(s) + Render(rest);
      RenderedStart(rest);
      hide ParseRest;
      hide Printable;
      hide RenderOne;
      hide Render;
      hide EndsName;
      ParseRendered(rest);
      ParseCons(s, Render(rest), rest);
      Rejoined(segments);
    }
  }

  /** If a leading piece of the printed text reads as the segments, every segment is
      printable and the piece is the whole text. */
  lemma {:induction false} ReadsBackWhole(segments: seq<Segment>, text: string)
    requires text <= Render(segments) && ParseRest(text) == Segments(segments)
    ensures text == Render(segments) && forall s <- segments :: Printable(s)
    decreases |segments|
  {
    if segments != [] {
      assert text != [];
      var s, tail := segments[0], segments[1..];
      var n := HeadOfText(segments, text);
      ReadsBackWhole(tail, text[n..]);
      assert text == text[..n] + text[n..];
      assert segments == [s] + tail;
    } else {
      assert text == [];
    }
  }

  /** The first segment's text is the first piece read. */
  lemma HeadOfText(segments: seq<Segment>, text: string) returns (n: nat)
    requires segments != [] && text != [] && text <= Render(segments) && ParseRest(text) == Segments(segments)
    ensures n <= |text| && text[..n] == RenderOne(segments[0]) && Printable(segments[0])
    ensures ParseRest(text[n..]) == Segments(segments[1..]) && text[n..] <= Render(segments[1..])
  {
    var s := segments[0];
    var all := Render(segments);
    assert all == RenderOne(s) + Render(segments[1..]);
    assert text[0] == all[0];
    if s.Key? {
      n := HeadKey(segments, text);
    } else {
      n := HeadIndex(segments, text);
    }
    assert all[n..] == Render(segments[1..]);
    PrefixDrop(text, all, n);
  }

  lemma PrefixDrop(text: string, all: string, n: nat)
    requires text <= all && n <= |text|
    ensures text[n..] <= all[n..]
  {
  }

  lemma ThenSplits(first: Parsed, rest: Parsed, segments: seq<Segment>)
    requires Then(first, rest) == Segments(segments) && first.Segments? && |first.segments| == 1
    ensures segments != [] && first == Segments([segments[0]]) && rest == Segments(segments[1..])
  {
    assert segments == first.segments + rest.segments;
  }

  lemma HeadKey(segments: seq<Segment>, text: string) returns (n: nat)
    requires segments != [] && segments[0].Key? && text != [] && text <= Render(segments) && text[0] == '.'
    requires ParseRest(text) == Segments(segments)
    ensures n <= |text| && text[..n] == RenderOne(segments[0]) && Printable(segments[0])
    ensures ParseRest(text[n..]) == Segments(segments[1..])
  {
    var end := NameEnd(text[1..]);
    var name := text[1..][..end];
    n := end + 1;
    ThenSplits(ParseName(name), ParseRest(text[1..][end..]), segments);
    assert segments[0] == Key(name);
    assert text[1..][end..] == text[n..];
    assert text[..n] == "." + name;
  }

  lemma UnfoldSubscript(text: string)
    requires text != [] && text[0] == '['
    ensures var end := Find(text, ']');
            0 < end && (ParseRest(text).Segments? ==> end < |text|) &&
            (end < |text| ==> ParseRest(text) == Then(ParseSubscript(text[1..][..end - 1]), ParseRest(text[end + 1..])))
  {
    hide ParseSubscript;
  }

  lemma HeadIndex(segments: seq<Segment>, text: string) returns (n: nat)
    requires segments != [] && segments[0].Index? && text != [] && text <= Render(segments) && text[0] == '['
    requires ParseRest(text) == Segments(segments)
    ensures n <= |text| && text[..n] == RenderOne(segments[0]) && Printable(segments[0])
    ensures ParseRest(text[n..]) == Segments(segments[1..])
  {
    var d := Digits(segments[0].index);
    assert Render(segments) == "[" + d + "]" + Render(segments[1..]);
    hide ParseRest;
    hide Digits;
    hide Render;
    hide ParseSubscript;
    hide Find;
    DigitsTrimmed(segments[0].index);
    SubscriptOfIndex(segments[0].index);
    UnfoldSubscript(text);
    SubscriptText(text, Render(segments), d, Render(segments[1..]));
    n := |d| + 2;
    ThenSplits(ParseSubscript(d), ParseRest(text[n..]), segments);
  }

  lemma SubscriptText(text: string, all: string, d: string, rest: string)
    requires text <= all && all == "[" + d + "]" + rest && ']' !in d && Find(text, ']') < |text|
    ensures Find(text, ']') == |d| + 1 && text[1..][..|d|] == d && text[..|d| + 2] == "[" + d + "]"
  {
    assert all == ("[" + d) + [']'] + rest;
    FindAppend("[" + d, ']', rest);
    SameFind(text, all, ']');
    hide Find;
    assert text[..|d| + 2] == all[..|d| + 2] == "[" + d + "]";
    assert text[1..][..|d|] == text[..|d| + 2][1..|d| + 1] == d;
  }

  lemma SameFind(text: string, all: string, c: char)
    requires text <= all && Find(text, c) < |text|
    ensures Find(all, c) == Find(text, c)
  {
    var i := Find(text, c);
    assert all[i] == text[i];
    FindAtMost(all, c, i);
    forall j | 0 <= j < i
      ensures all[j] != c
    {
      assert all[j] == text[..i][j];
    }
  }

  predicate LastTrimmed(segments: seq<Segment>)
    requires segments != []
  {
    var last := segments[|segments| - 1];
    last.Key? && last.key != [] ==> !IsSpace(last.key[|last.key| - 1])
  }

  /** Parsing a printed path gives it back exactly when there is a segment, every key is
      free of dots and opening brackets, not empty and not a star, every index fits an int,
      and the last key does not end in whitespace. */
  lemma RoundTrip(segments: seq<Segment>)
    ensures Parse(RenderPath(segments)) == Segments(segments) <==>
            segments != [] && (forall s <- segments :: Printable(s)) && LastTrimmed(segments)
  {
    var path := RenderPath(segments);
    DollarStays(Render(segments));
    var t := Trim(path);
    if segments != [] && (forall s <- segments :: Printable(s)) && LastTrimmed(segments) {
      RenderEnd(segments);
      ParseRendered(segments);
      NoDescent(segments);
      TrimIsTrimmed(path);
      assert path[1..] == Render(segments);
    } else if Parse(path) == Segments(segments) {
      assert t <= path && t[0] == '$';
      PrefixDrop(t, path, 1);
      assert path[1..] == Render(segments);
      ReadsBackWhole(segments, t[1..]);
      assert t == "$" + t[1..];
      assert t == path;
      TrimIsTrimmed(path);
      RenderEnd(segments);
    }
  }

  lemma DollarStays(rest: string)
    ensures Trim("$" + rest) <= "$" + rest && Trim("$" + rest) != [] && Trim("$" + rest)[0] == '$'
  {
    var p := "$" + rest;
    assert TrimLeft(p) == p;
    assert [] + p == p;
    KeepsFirst(p);
  }

  lemma {:induction false} KeepsFirst(s: string)
    requires s != [] && !IsSpace(s[0])
    ensures TrimRight(s) != []
  {
    if IsSpace(s[|s| - 1]) {
      KeepsFirst(s[..|s| - 1]);
    }
  }

  lemma {:induction false} RenderSnoc(segments: seq<Segment>)
    requires segments != []
    ensures Render(segments) == Render(segments[..|segments| - 1]) + RenderOne(segments[|segments| - 1])
  {
    var n := |segments| - 1;
    hide RenderOne;
    if n > 0 {
      RenderSnoc(segments[1..]);
      assert segments[1..][..n - 1] == segments[..n][1..];
      assert segments[1..][n - 1] == segments[n];
      assert RenderOne(segments[0]) + (Render(segments[..n][1..]) + RenderOne(segments[n]))
          == RenderOne(segments[0]) + Render(segments[..n][1..]) + RenderOne(segments[n]);
    } else {
      assert segments[..0] == [] && segments[1..] == [];
    }
  }

  lemma SegmentEnd(s: Segment)
    requires s.Key? ==> s.key != []
    ensures RenderOne(s) != [] && (IsSpace(RenderOne(s)[|RenderOne(s)| - 1]) <==> s.Key? && IsSpace(s.key[|s.key| - 1]))
  {
    hide Digits;
    var t := RenderOne(s);
    if s.Index? {
      assert t[|t| - 1] == ']';
    }
  }

  /** A printed path ends in whitespace exactly when its last key does. */
  lemma RenderEnd(segments: seq<Segment>)
    requires segments != [] && forall s <- segments :: Printable(s)
    ensures Trimmed(RenderPath(segments)) <==> LastTrimmed(segments)
  {
    var s := segments[|segments| - 1];
    assert Printable(s);
    RenderSnoc(segments);
    SegmentEnd(s);
    hide Render;
    hide RenderOne;
    hide Printable;
    hide IsSpace;
    DollarFirst(Render(segments[..|segments| - 1]), RenderOne(s));
  }

  lemma DollarFirst(a: string, b: string)
    requires b != []
    ensures Trimmed("$" + (a + b)) <==> !IsSpace(b[|b| - 1])
  {
    var p := "$" + (a + b);
    assert p[0] == '$' && p[|p| - 1] == b[|b| - 1];
  }

  lemma NoDescent(segments: seq<Segment>)
    requires segments != [] && Printable(segments[0])
    ensures !("$.." <= RenderPath(segments))
  {
    var p := RenderPath(segments);
    hide Digits;
    if segments[0].Key? {
      assert p[2] == segments[0].key[0];
      NotPrefix("$..", p, 2);
    } else {
      assert p[1] == '[';
      NotPrefix("$..", p, 1);
    }
  }

  lemma NotPrefix(q: string, p: string, i: nat)
    requires i < |q| && i < |p| && q[i] != p[i]
    ensures !(q <= p)
  {
  }

  /** An accepted path names at least one segment, and its indexes fit an int. */
  lemma {:induction false} ParsedIndexes(rest: string)
    requires ParseRest(rest).Segments?
    ensures forall s <- ParseRest(rest).segments :: s.Index? ==> s.index <= MAX_INT
    decreases |rest|
  {
    if rest != [] {
      if rest[0] == '.' {
        ParsedIndexes(rest[1..][NameEnd(rest[1..])..]);
      } else {
        ParsedIndexes(rest[Find(rest, ']') + 1..]);
        hide Trim;
        hide Find;
      }
    }
  }

  lemma AcceptedPath(path: string)
    requires Parse(path).Segments?
    ensures Parse(path).segments != []
    ensures forall s <- Parse(path).segments :: s.Index? ==> s.index <= MAX_INT
  {
    ParsedIndexes(Trim(path)[1..]);
  }

  // --- what else is read, and what is not ----------------------------------------------------------

  /** What a piece that is no segment starts with, and why it is none. */
  ghost predicate Fault(piece: string, reason: Reason) {
    match reason
    case EmptyKey => piece == "." || (|piece| > 1 && piece[0] == '.' && EndsName(piece[1]))
    case Wildcard => ".*" <= piece && (|piece| == 2 || EndsName(piece[2]))
    case Unclosed => piece != [] && piece[0] == '[' && ']' !in piece
    case EmptySubscript =>
      exists inner: string, rest: string :: piece == "[" + inner + "]" + rest && ']' !in inner && Trim(inner) == []
    case Subscript =>
      exists inner: string, rest: string :: piece == "[" + inner + "]" + rest && ']' !in inner && NoSubscript(Trim(inner))
    case Unsupported => piece != [] && !EndsName(piece[0])
    case _ => false
  }

  /** Neither quoted nor a number from 0 to the largest int, with or without a sign. */
  predicate NoSubscript(inner: string) {
    && inner != []
    && !(|inner| >= 2 && (inner[0] == '"' || inner[0] == '\'') && inner[|inner| - 1] == inner[0])
    && var digits := if inner[0] == '+' || inner[0] == '-' then inner[1..] else inner;
       digits == [] || !AllDigits(digits) || Number(digits) > 9223372036854775807 || (inner[0] == '-' && Number(digits) > 0)
  }

  /** A subscript that is neither blank nor quoted is the number it shows. */
  lemma SubscriptFault(inner: string)
    ensures Trim(inner) == [] ==> ParseSubscript(inner) == Rejected(EmptySubscript)
    ensures NoSubscript(Trim(inner)) <==> ParseSubscript(inner) == Rejected(Reason.Subscript)
    ensures var t := Trim(inner);
            t != [] && t[0] !in "\"'" && !NoSubscript(t) ==>
              ParseSubscript(inner) == Segments([Index(Number(if t[0] == '+' || t[0] == '-' then t[1..] else t))])
  {
    hide Trim;
  }

  lemma BracketHead(inner: string, rest: string)
    requires ']' !in inner
    ensures ParseRest("[" + inner + "]" + rest) == Then(ParseSubscript(inner), ParseRest(rest))
  {
    hide ParseSubscript;
    var t := "[" + inner + "]" + rest;
    assert t == ("[" + inner) + [']'] + rest;
    FindAppend("[" + inner, ']', rest);
    hide Find;
    assert t[0] == '[' && t[1..][..|inner|] == inner && t[|inner| + 2..] == rest;
  }

  lemma FaultIsRejected(piece: string, reason: Reason)
    requires Fault(piece, reason)
    ensures ParseRest(piece) == Rejected(reason)
  {
    match reason
    case EmptyKey =>
      assert NameEnd(piece[1..]) == 0;
    case Wildcard =>
      assert NameEnd(piece[1..]) == 1 && piece[1..][..1] == "*";
    case Unclosed =>
    case EmptySubscript =>
      var inner: string, rest: string :| piece == "[" + inner + "]" + rest && ']' !in inner && Trim(inner) == [];
      BracketHead(inner, rest);
      SubscriptFault(inner);
    case Subscript =>
      var inner: string, rest: string :| piece == "[" + inner + "]" + rest && ']' !in inner && NoSubscript(Trim(inner));
      BracketHead(inner, rest);
      SubscriptFault(inner);
    case Unsupported =>
    case _ =>
  }

  /** Behind any printed segments the first piece that is none decides the error. */
  lemma FirstErrorWins(segments: seq<Segment>, piece: string, reason: Reason)
    requires (forall s <- segments :: Printable(s)) && Fault(piece, reason) && piece != []
    requires segments != [] && segments[|segments| - 1].Key? ==> EndsName(piece[0])
    ensures ParseRest(Render(segments) + piece) == Rejected(reason)
  {
    FaultIsRejected(piece, reason);
    hide ParseRest;
    hide Printable;
    hide EndsName;
    hide Render;
    ErrorRemains(segments, piece, reason);
  }

  lemma {:induction false} ErrorRemains(segments: seq<Segment>, tail: string, reason: Reason)
    requires (forall s <- segments :: Printable(s)) && tail != [] && ParseRest(tail) == Rejected(reason)
    requires segments != [] && segments[|segments| - 1].Key? ==> EndsName(tail[0])
    ensures ParseRest(Render(segments) + tail) == Rejected(reason)
    decreases |segments|
  {
    if segments == [] {
      assert "" + tail == tail;
    } else {
      var n := |segments| - 1;
      var s := segments[n];
      assert s in segments && forall r <- segments[..n] :: r in segments;
      hide ParseRest;
      RenderSnoc(segments);
      OneStarts(s, tail);
      hide Printable;
      hide RenderOne;
      hide EndsName;
      hide Render;
      ErrorBehind(s, tail, reason);
      ErrorRemains(segments[..n], RenderOne(s) + tail, reason);
      Associates(Render(segments[..n]), RenderOne(s), tail);
    }
  }

  lemma OneStarts(s: Segment, tail: string)
    ensures RenderOne(s) + tail != [] && EndsName((RenderOne(s) + tail)[0])
  {
  }

  lemma Associates(a: string, b: string, c: string)
    ensures a + (b + c) == a + b + c
  {
  }

  lemma ErrorBehind(s: Segment, rest: string, reason: Reason)
    requires Printable(s) && ParseRest(rest) == Rejected(reason) && (s.Key? && rest != [] ==> EndsName(rest[0]))
    ensures ParseRest(RenderOne(s) + rest) == Rejected(reason)
  {
    hide ParseRest;
    hide Digits;
    if s.Key? {
      ParseKeyHead(s.key, rest);
    } else {
      ParseIndexHead(s.index, rest);
    }
  }

  /** A quoted subscript is a key, whatever it holds but a closing bracket, and blanks
      around it do not count. */
  lemma QuotedKey(key: string, quote: char, before: string, after: string, rest: string)
    requires quote == '"' || quote == '\''
    requires ']' !in key && Blank(before) && Blank(after)
    ensures ParseRest("[" + (before + ([quote] + key + [quote] + after)) + "]" + rest)
            == Then(Segments([Key(key)]), ParseRest(rest))
  {
    var quoted := [quote] + key + [quote];
    QuotedInner(key, quote, before, after);
    BlankHasNone(before);
    BlankHasNone(after);
    hide ParseSubscript;
    hide ParseRest;
    hide Blank;
    BracketHead(before + (quoted + after), rest);
  }

  lemma QuotedInner(key: string, quote: char, before: string, after: string)
    requires (quote == '"' || quote == '\'') && Blank(before) && Blank(after)
    ensures ParseSubscript(before + ([quote] + key + [quote] + after)) == Segments([Key(key)])
  {
    var quoted := [quote] + key + [quote];
    assert !IsSpace(quote);
    TrimIsTrimmed(quoted);
    QuotedIs(key, quote);
    hide Blank;
    hide Trim;
    hide IsSpace;
    BlankBefore(before, quoted + after);
    BlankBehind(quoted, after);
    hide Unquote;
  }

  lemma QuotedIs(key: string, quote: char)
    requires quote == '"' || quote == '\''
    ensures Unquote([quote] + key + [quote]) == Some(key)
  {
    assert ([quote] + key + [quote])[1..|key| + 1] == key;
  }

  lemma BlankHasNone(s: string)
    requires Blank(s)
    ensures ']' !in s
  {
  }

  predicate Blank(s: string) {
    forall i :: 0 <= i < |s| ==> IsSpace(s[i])
  }

  lemma {:induction false} BlankBefore(before: string, t: string)
    requires Blank(before)
    ensures Trim(before + t) == Trim(t)
  {
    hide Trim;
    if before == [] {
      assert before + t == t;
    } else {
      BlankBefore(before[1..], t);
      TrimLeading(before[0], before[1..] + t);
      assert before + t == [before[0]] + (before[1..] + t);
    }
  }

  lemma {:induction false} BlankBehind(s: string, after: string)
    requires s != [] && !IsSpace(s[0]) && Blank(after)
    ensures Trim(s + after) == Trim(s)
    decreases |after|
  {
    hide Trim;
    if after == [] {
      assert s + after == s;
    } else {
      var n := |after| - 1;
      BlankBehind(s, after[..n]);
      TrimTrailing(s + after[..n], after[n]);
      assert s + after == (s + after[..n]) + [after[n]];
    }
  }

  /** A path that is blank, does not start with the dollar, goes on with two dots, or ends
      there is refused for that. */
  lemma PathErrors(rest: string)
    requires Trimmed("$" + rest)
    ensures rest == "" ==> Parse("$" + rest) == Rejected(WholeDocument)
    ensures ".." <= rest ==> Parse("$" + rest) == Rejected(RecursiveDescent)
    ensures rest != "" && !(".." <= rest) ==> Parse("$" + rest) == ParseRest(rest)
  {
    var p := "$" + rest;
    TrimIsTrimmed(p);
    assert p[1..] == rest;
    assert "$.." <= p <==> ".." <= rest by {
      assert "$.."[1..] == "..";
      if "$.." <= p { assert p[1..][..2] == ".."; }
      if ".." <= rest { assert p[..3] == "$" + rest[..2]; }
    }
    if rest != [] {
      RestNotEmpty(rest);
    }
    hide ParseRest;
  }

  lemma RestNotEmpty(rest: string)
    requires rest != []
    ensures ParseRest(rest) != Segments([])
  {
  }

  lemma NoPath(path: string)
    ensures Trim(path) == [] ==> Parse(path) == Rejected(Required)
    ensures Trim(path) != [] && Trim(path)[0] != '$' ==> Parse(path) == Rejected(NoDollar)
  {
    hide Trim;
  }

  // --- walking a document --------------------------------------------------------------------------

  datatype Json =
    | Null | Bool(b: bool) | Numbered(text: string) | Str(s: string)
    | List(items: seq<Json>) | Object(fields: map<string, Json>)

  function Child(j: Json, s: Segment): Option<Json> {
    match s
    case Key(key) => if j.Object? && key in j.fields then Some(j.fields[key]) else None
    case Index(index) => if j.List? && index < |j.items| then Some(j.items[index]) else None
  }

  function Lookup(j: Json, segments: seq<Segment>): Option<Json> {
    if segments == [] then Some(j)
    else
      var child := Child(j, segments[0]);
      if child.None? then None else Lookup(child.value, segments[1..])
  }

  datatype Miss = NotAnObject | NoKey | NotAList | TooFew(entries: nat)

  datatype Walk = Found(value: Json) | Missing(prefix: string, miss: Miss)

  function MissAt(j: Json, s: Segment): Miss {
    match s
    case Key(_) => if j.Object? then NoKey else NotAnObject
    case Index(_) => if j.List? then TooFew(|j.items|) else NotAList
  }

  /** A key leads into the field of an object, an index to the element of a list; nothing
      else leads anywhere, and a miss says what was wrong. */
  lemma OneStep(j: Json, s: Segment, rest: seq<Segment>)
    ensures s.Key? && j.Object? && s.key in j.fields ==> Lookup(j, [s] + rest) == Lookup(j.fields[s.key], rest)
    ensures s.Index? && j.List? && s.index < |j.items| ==> Lookup(j, [s] + rest) == Lookup(j.items[s.index], rest)
    ensures s.Key? && !(j.Object? && s.key in j.fields) ==>
              Lookup(j, [s] + rest) == None && MissAt(j, s) == if j.Object? then NoKey else NotAnObject
    ensures s.Index? && !(j.List? && s.index < |j.items|) ==>
              Lookup(j, [s] + rest) == None && MissAt(j, s) == if j.List? then TooFew(|j.items|) else NotAList
  {
    assert ([s] + rest)[1..] == rest;
  }

  lemma {:induction false} LookupSnoc(j: Json, segments: seq<Segment>, s: Segment)
    ensures var before := Lookup(j, segments);
            Lookup(j, segments + [s]) == if before.None? then None else Child(before.value, s)
  {
    if segments == [] {
      assert ([] + [s])[1..] == [];
    } else {
      assert (segments + [s])[1..] == segments[1..] + [s];
      if Child(j, segments[0]).Some? {
        LookupSnoc(Child(j, segments[0]).value, segments[1..], s);
      }
    }
  }

  lemma {:induction false} LookupShorter(j: Json, segments: seq<Segment>, n: nat)
    requires n <= |segments| && Lookup(j, segments[..n]).None?
    ensures Lookup(j, segments).None?
    decreases |segments| - n
  {
    if n < |segments| {
      LookupSnoc(j, segments[..n], segments[n]);
      assert segments[..n + 1] == segments[..n] + [segments[n]];
      LookupShorter(j, segments, n + 1);
    } else {
      assert segments[..n] == segments;
    }
  }

  lemma {:induction false} RenderAppend(a: seq<Segment>, b: seq<Segment>)
    ensures Render(a + b) == Render(a) + Render(b)
  {
    hide RenderOne;
    if a == [] {
      assert a + b == b;
    } else {
      assert (a + b)[1..] == a[1..] + b;
      RenderAppend(a[1..], b);
    }
  }

  lemma RenderPathNext(segments: seq<Segment>, i: nat)
    requires i < |segments|
    ensures RenderPath(segments[..i + 1]) == RenderPath(segments[..i]) + RenderOne(segments[i])
  {
    RenderSnoc(segments[..i + 1]);
    assert segments[..i + 1][..i] == segments[..i];
    hide Render;
    hide RenderOne;
    assert "$" + (Render(segments[..i]) + RenderOne(segments[i])) == "$" + Render(segments[..i]) + RenderOne(segments[i]);
  }

  method Prefix(segments: seq<Segment>, depth: nat) returns (out: string)
    requires depth <= |segments|
    ensures out == RenderPath(segments[..depth])
  {
    hide Digits;
    out := "$";
    assert RenderPath(segments[..0]) == "$";
    hide RenderPath;
    for i := 0 to depth
      invariant out == RenderPath(segments[..i])
    {
      RenderPathNext(segments, i);
      if segments[i].Key? {
        out := out + ("." + segments[i].key);
      } else {
        out := out + ("[" + Digits(segments[i].index) + "]");
      }
    }
  }

  /** The segments up to depth resolve, and no longer piece does, for the reason given. */
  ghost predicate StopsAt(document: Json, segments: seq<Segment>, depth: nat, miss: Miss) {
    && depth < |segments|
    && Lookup(document, segments[..depth]).Some?
    && miss == MissAt(Lookup(document, segments[..depth]).value, segments[depth])
    && (forall longer :: depth < longer <= |segments| ==> Lookup(document, segments[..longer]).None?)
  }

  /** The walk finds what recursive lookup finds; a miss names the longest prefix that
      resolves and why the next segment does not. */
  method Resolve(document: Json, segments: seq<Segment>) returns (walk: Walk)
    ensures walk.Found? <==> Lookup(document, segments).Some?
    ensures walk.Found? ==> Lookup(document, segments) == Some(walk.value)
    ensures walk.Missing? ==>
              exists depth: nat :: StopsAt(document, segments, depth, walk.miss) && walk.prefix == RenderPath(segments[..depth])
  {
    var current := document;
    for depth := 0 to |segments|
      invariant Lookup(document, segments[..depth]) == Some(current)
    {
      var segment := segments[depth];
      LookupSnoc(document, segments[..depth], segment);
      assert segments[..depth + 1] == segments[..depth] + [segment];
      hide Lookup;
      var child := Child(current, segment);
      if child.None? {
        forall longer | depth < longer <= |segments|
          ensures Lookup(document, segments[..longer]).None?
        {
          assert segments[..longer][..depth + 1] == segments[..depth + 1];
          LookupShorter(document, segments[..longer], depth + 1);
        }
        assert segments[..|segments|] == segments;
        assert StopsAt(document, segments, depth, MissAt(current, segment));
        var prefix := Prefix(segments, depth);
        return Missing(prefix, MissAt(current, segment));
      }
      current := child.value;
    }
    assert segments[..|segments|] == segments;
    return Found(current);
  }

  // --- parsing as the source runs it ---------------------------------------------------------------

  lemma ThenAppends(done: seq<Segment>, s: Segment, rest: Parsed)
    ensures Then(Segments(done), Then(Segments([s]), rest)) == Then(Segments(done + [s]), rest)
  {
    if rest.Segments? {
      assert done + ([s] + rest.segments) == done + [s] + rest.segments;
    }
  }

  method ParsePath(path: string) returns (result: Parsed)
    ensures result == Parse(path)
  {
    var trimmed := Trim(path);
    hide Trim;
    if trimmed == [] {
      return Rejected(Required);
    }
    if trimmed[0] != '$' {
      return Rejected(NoDollar);
    }
    if "$.." <= trimmed {
      return Rejected(RecursiveDescent);
    }
    var segments, rest := [], trimmed[1..];
    while rest != []
      invariant Then(Segments(segments), ParseRest(rest)) == ParseRest(trimmed[1..])
      decreases |rest|
    {
      var segment: Segment;
      var next: string;
      if rest[0] == '.' {
        var end := NameEnd(rest[1..]);
        var name := rest[1..][..end];
        next := rest[1..][end..];
        if name == [] {
          return Rejected(EmptyKey);
        }
        if name == "*" {
          return Rejected(Wildcard);
        }
        segment := Key(name);
      } else if rest[0] == '[' {
        var end := Find(rest, ']');
        if end == |rest| {
          return Rejected(Unclosed);
        }
        var subscript := ParseSubscript(rest[1..][..end - 1]);
        if subscript.Rejected? {
          return subscript;
        }
        next := rest[end + 1..];
        OneSegment(rest[1..][..end - 1]);
        segment := subscript.segments[0];
      } else {
        return Rejected(Unsupported);
      }
      assert ParseRest(rest) == Then(Segments([segment]), ParseRest(next));
      hide ParseRest;
      ThenAppends(segments, segment, ParseRest(next));
      segments, rest := segments + [segment], next;
    }
    if segments == [] {
      return Rejected(WholeDocument);
    }
    return Segments(segments);
  }

  lemma OneSegment(text: string)
    requires ParseSubscript(text).Segments?
    ensures |ParseSubscript(text).segments| == 1 && ParseSubscript(text).segments == [ParseSubscript(text).segments[0]]
  {
  }
}
