// The curl command: written from a response example, split into arguments, and imported
// back as a request.

module CurlWords {
  import opened Text

  // --- quoting -----------------------------------------------------------------------------------

  function Escaped(s: string): string {
    if s == [] then []
    else (if s[0] == '\'' then "'\"'\"'" else [s[0]]) + Escaped(s[1..])
  }

  /** POSIX single quoting; a quote inside is closed, put in double quotes, and reopened. */
  function ShellSingleQuote(s: string): string {
    "'" + Escaped(s) + "'"
  }

  // --- splitting ---------------------------------------------------------------------------------

  datatype Scanner = Scanner(args: seq<string>, current: string, quote: Option<char>, escaped: bool)

  const START: Scanner := Scanner([], [], None, false)

  function Push(args: seq<string>, current: string): seq<string> {
    if current == [] then args else args + [current]
  }

  function Step(s: Scanner, c: char): Scanner {
    if s.escaped then s.(current := s.current + [c], escaped := false)
    else if c == '\\' && s.quote != Some('\'') then s.(escaped := true)
    else if s.quote.Some? then
      if c == s.quote.value then s.(quote := None) else s.(current := s.current + [c])
    else if c == '\'' || c == '"' then s.(quote := Some(c))
    else if c == ' ' || c == '\t' || c == '\n' then s.(args := Push(s.args, s.current), current := [])
    else s.(current := s.current + [c])
  }

  function Scan(s: Scanner, text: string): Scanner
    decreases |text|
  {
    if text == [] then s else Scan(Step(s, text[0]), text[1..])
  }

  function Finish(s: Scanner): Option<seq<string>> {
    if s.quote.Some? || s.escaped then None else Some(Push(s.args, s.current))
  }

  function SplitArgs(command: string): Option<seq<string>> {
    Finish(Scan(START, Trim(command)))
  }

  lemma {:induction false} ScanAppend(s: Scanner, a: string, b: string)
    ensures Scan(s, a + b) == Scan(Scan(s, a), b)
    decreases |a|
  {
    if a == [] {
      assert a + b == b;
    } else {
      assert (a + b)[1..] == a[1..] + b;
      ScanAppend(Step(s, a[0]), a[1..], b);
    }
  }

  function Bare(args: seq<string>, current: string): Scanner {
    Scanner(args, current, None, false)
  }

  function Quoted(args: seq<string>, current: string): Scanner {
    Scanner(args, current, Some('\''), false)
  }

  lemma ScanQuoteInQuote(args: seq<string>, current: string)
    ensures Scan(Quoted(args, current), "'\"'\"'") == Quoted(args, current + ['\''])
  {
    var t := "'\"'\"'";
    assert t[1..] == "\"'\"'" && t[1..][1..] == "'\"'" && t[1..][1..][1..] == "\"'" && t[1..][1..][1..][1..] == "'";
    assert t[1..][1..][1..][1..][1..] == [];
    var s0 := Quoted(args, current);
    var s1 := Step(s0, '\'');
    var s2 := Step(s1, '"');
    var s3 := Step(s2, '\'');
    var s4 := Step(s3, '"');
    var s5 := Step(s4, '\'');
    assert Scan(s4, "'") == Scan(s5, []) == s5;
    assert Scan(s3, "\"'") == Scan(s4, "'");
    assert Scan(s2, "'\"'") == Scan(s3, "\"'");
    assert Scan(s1, "\"'\"'") == Scan(s2, "'\"'");
    assert Scan(s0, t) == Scan(s1, "\"'\"'");
  }

  lemma ScanOne(s: Scanner, c: char)
    ensures Scan(s, [c]) == Step(s, c)
  {
    assert [c][1..] == [];
  }

  lemma {:induction false} ScanEscaped(args: seq<string>, current: string, s: string)
    ensures Scan(Quoted(args, current), Escaped(s)) == Quoted(args, current + s)
    decreases |s|
  {
    if s == [] {
      assert current + s == current;
    } else {
      var first := if s[0] == '\'' then "'\"'\"'" else [s[0]];
      ScanAppend(Quoted(args, current), first, Escaped(s[1..]));
      assert Scan(Quoted(args, current), first) == Quoted(args, current + [s[0]]) by {
        ScanQuoteInQuote(args, current);
        ScanOne(Quoted(args, current), s[0]);
      }
      hide Scan;
      ScanEscaped(args, current + [s[0]], s[1..]);
      assert current + [s[0]] + s[1..] == current + s;
    }
  }

  /** Splitting undoes quoting: a quoted word adds exactly its text. */
  lemma ScanQuoted(args: seq<string>, current: string, s: string)
    ensures Scan(Bare(args, current), ShellSingleQuote(s)) == Bare(args, current + s)
  {
    ScanOne(Bare(args, current), '\'');
    ScanEscaped(args, current, s);
    ScanOne(Quoted(args, current + s), '\'');
    ScanAppend(Bare(args, current), "'", Escaped(s) + "'");
    ScanAppend(Quoted(args, current), Escaped(s), "'");
    assert "'" + Escaped(s) + "'" == "'" + (Escaped(s) + "'");
    hide Scan;
  }

  predicate PlainChar(c: char) {
    c != '\\' && c != '\'' && c != '"' && c != ' ' && c != '\t' && c != '\n'
  }

  lemma {:induction false} ScanPlain(args: seq<string>, current: string, w: string)
    requires forall i :: 0 <= i < |w| ==> PlainChar(w[i])
    ensures Scan(Bare(args, current), w) == Bare(args, current + w)
    decreases |w|
  {
    if w == [] {
      assert current + w == current;
    } else {
      assert forall i :: 0 <= i < |w| - 1 ==> w[1..][i] == w[i + 1];
      ScanPlain(args, current + [w[0]], w[1..]);
      assert current + [w[0]] + w[1..] == current + w;
    }
  }

  // --- any list of arguments ---------------------------------------------------------------------

  function QuotedWords(args: seq<string>): seq<string> {
    if args == [] then [] else QuotedWords(args[..|args| - 1]) + [ShellSingleQuote(args[|args| - 1])]
  }

  lemma {:induction false} JoinSnoc(words: seq<string>, w: string, sep: string)
    requires words != []
    ensures Join(words + [w], sep) == Join(words, sep) + sep + w
  {
    if |words| == 1 {
      assert (words + [w])[1..] == [w];
    } else {
      assert (words + [w])[1..] == words[1..] + [w];
      JoinSnoc(words[1..], w, sep);
      assert words[0] + sep + (Join(words[1..], sep) + sep + w) == words[0] + sep + Join(words[1..], sep) + sep + w;
    }
  }

  function NonEmpty(args: seq<string>): seq<string> {
    if args == [] then [] else Push(NonEmpty(args[..|args| - 1]), args[|args| - 1])
  }

  lemma {:induction false} ScanWords(args: seq<string>)
    requires args != []
    ensures Scan(START, Join(QuotedWords(args), " ")) == Bare(NonEmpty(args[..|args| - 1]), args[|args| - 1])
    decreases |args|
  {
    var n := |args| - 1;
    var last := args[n];
    if n == 0 {
      assert QuotedWords(args) == [ShellSingleQuote(last)];
      ScanQuoted([], [], last);
      assert [] + last == last;
      assert args[..0] == [];
    } else {
      var words := QuotedWords(args[..n]);
      JoinSnoc(words, ShellSingleQuote(last), " ");
      ScanWords(args[..n]);
      ScanAppend(START, Join(words, " ") + " ", ShellSingleQuote(last));
      ScanAppend(START, Join(words, " "), " ");
      var before := Scan(START, Join(words, " "));
      ScanOne(before, ' ');
      assert args[..n][..n - 1] == args[..n - 1];
      assert Step(before, ' ') == Bare(NonEmpty(args[..n]), []);
      ScanQuoted(NonEmpty(args[..n]), [], last);
      assert [] + last == last;
    }
  }

  lemma QuotedEnds(args: seq<string>)
    requires args != []
    ensures var t := Join(QuotedWords(args), " "); t != [] && t[|t| - 1] == '\''
  {
    var n := |args| - 1;
    var q := ShellSingleQuote(args[n]);
    assert q[|q| - 1] == '\'';
    if n > 0 {
      JoinSnoc(QuotedWords(args[..n]), q, " ");
    }
  }

  lemma {:induction false} QuotedStarts(args: seq<string>)
    requires args != []
    ensures var t := Join(QuotedWords(args), " "); t != [] && t[0] == '\''
  {
    var n := |args| - 1;
    var q := ShellSingleQuote(args[n]);
    assert q[0] == '\'';
    if n > 0 {
      QuotedStarts(args[..n]);
      JoinSnoc(QuotedWords(args[..n]), q, " ");
    }
  }

  /** Quoting a list of arguments and splitting the line gives the arguments back, except
      the empty ones. */
  lemma QuotedWordsComeBack(args: seq<string>)
    ensures SplitArgs(Join(QuotedWords(args), " ")) == Some(NonEmpty(args))
  {
    if args != [] {
      var t := Join(QuotedWords(args), " ");
      QuotedStarts(args);
      QuotedEnds(args);
      TrimIsTrimmed(t);
      ScanWords(args);
    }
  }

  lemma {:induction false} NoneLost(args: seq<string>)
    ensures NonEmpty(args) == args <==> "" !in args
  {
    if args != [] {
      var n := |args| - 1;
      NoneLost(args[..n]);
      NoLonger(args[..n]);
      assert args == args[..n] + [args[n]];
      if NonEmpty(args) == args && args[n] != [] {
        assert NonEmpty(args[..n]) == args[..n];
      }
    }
  }

  lemma {:induction false} NoLonger(args: seq<string>)
    ensures |NonEmpty(args)| <= |args|
  {
    if args != [] {
      NoLonger(args[..|args| - 1]);
    }
  }

  // --- as the source runs it ---------------------------------------------------------------------

  lemma ScanNext(text: string, i: nat)
    requires i < |text|
    ensures Scan(START, text[..i + 1]) == Step(Scan(START, text[..i]), text[i])
  {
    assert text[..i + 1] == text[..i] + [text[i]];
    ScanAppend(START, text[..i], [text[i]]);
    ScanOne(Scan(START, text[..i]), text[i]);
  }

  method SplitCurlImportArgs(command: string) returns (result: Option<seq<string>>)
    ensures result == SplitArgs(command)
  {
    var text := Trim(command);
    hide Trim;
    var args: seq<string>, current: string, quote: Option<char>, escaped := [], [], None, false;
    for i := 0 to |text|
      invariant Scanner(args, current, quote, escaped) == Scan(START, text[..i])
    {
      var c := text[i];
      ScanNext(text, i);
      hide Scan;
      if escaped {
        current := current + [c];
        escaped := false;
        continue;
      }
      if c == '\\' && quote != Some('\'') {
        escaped := true;
        continue;
      }
      if quote.Some? {
        if c == quote.value {
          quote := None;
        } else {
          current := current + [c];
        }
        continue;
      }
      if c == '\'' || c == '"' {
        quote := Some(c);
        continue;
      }
      if c == ' ' || c == '\t' || c == '\n' {
        if |current| > 0 {
          args := args + [current];
          current := [];
        }
        continue;
      }
      current := current + [c];
    }
    assert text[..|text|] == text;
    if quote.Some? || escaped {
      return None;
    }
    if |current| > 0 {
      args := args + [current];
    }
    return Some(args);
  }
}

module CurlCommand {
  import opened CurlWords
  import opened Text

  datatype KeyValue = KeyValue(name: string, value: string, enabled: bool)

  datatype Part = Part(name: string, value: string, filePath: string, contentType: string, enabled: bool)

  /** The selected body file, with the content type it is sent under. */
  datatype BodyFile = BodyFile(path: string, contentType: string)

  /** A response example's request. The URL is complete with its parameters, and the form is
      the encoding of its enabled rows. */
  datatype Example = Example(
    verb: string, url: string, headers: seq<KeyValue>, bodyMode: string, body: string,
    encodedForm: string, parts: seq<Part>, file: Option<BodyFile>)

  // --- writing the command -----------------------------------------------------------------------

  function Method(e: Example): string {
    Upper(Trim(if Trim(e.verb) == [] then "GET" else e.verb))
  }

  function NormalizedBodyMode(mode: string): string {
    var m := Trim(mode);
    if m == "form-url-encoded" || m == "formUrlEncoded" then "formUrlEncoded"
    else if m == "multipart-form" || m == "multipartForm" || m == "multipart" then "multipartForm"
    else m
  }

  function RawBody(e: Example): string {
    var mode := NormalizedBodyMode(e.bodyMode);
    if mode == "" || mode == "none" then "" else e.body
  }

  function AutoContentType(e: Example): string {
    var mode := NormalizedBodyMode(e.bodyMode);
    if mode == "json" || mode == "graphql" then "application/json"
    else if mode == "xml" then "application/xml"
    else if mode == "text" then "text/plain"
    else if mode == "formUrlEncoded" && e.encodedForm != [] then "application/x-www-form-urlencoded"
    else if mode == "file" && e.file.Some? then e.file.value.contentType
    else ""
  }

  function EnabledKeyValues(rows: seq<KeyValue>): seq<KeyValue> {
    if rows == [] then []
    else
      var n := |rows| - 1;
      EnabledKeyValues(rows[..n]) +
        if rows[n].enabled && Trim(rows[n].name) != [] then [KeyValue(Trim(rows[n].name), rows[n].value, true)] else []
  }

  predicate HasHeaderName(headers: seq<KeyValue>, name: string) {
    exists h <- headers :: Lower(Trim(h.name)) == Lower(name)
  }

  /** The headers sent: the enabled ones, and the body's content type if none is among them. */
  function Headers(e: Example): seq<KeyValue> {
    var headers := EnabledKeyValues(e.headers);
    if AutoContentType(e) != [] && !HasHeaderName(headers, "content-type")
    then headers + [KeyValue("Content-Type", AutoContentType(e), true)]
    else headers
  }

  datatype Opt = Opt(flag: string, value: string)

  function HeaderOpt(h: KeyValue): Opt {
    Opt("--header", Trim(h.name) + ": " + h.value)
  }

  function HeaderOpts(headers: seq<KeyValue>): seq<Opt> {
    if headers == [] then [] else HeaderOpts(headers[..|headers| - 1]) + [HeaderOpt(headers[|headers| - 1])]
  }

  function FormPart(p: Part): string {
    var name := Trim(p.name);
    if Trim(p.filePath) == [] then name + "=" + p.value
    else
      var value := name + "=@" + Trim(p.filePath);
      if Trim(p.contentType) == [] then value else value + ";type=" + Trim(p.contentType)
  }

  predicate Sent(p: Part) {
    p.enabled && Trim(p.name) != []
  }

  function FormOpts(parts: seq<Part>): seq<Opt> {
    if parts == [] then []
    else
      var n := |parts| - 1;
      FormOpts(parts[..n]) + if Sent(parts[n]) then [Opt("--form", FormPart(parts[n]))] else []
  }

  function DataOpt(flag: string, value: string): seq<Opt> {
    if value == [] then [] else [Opt(flag, value)]
  }

  function BodyOpts(e: Example): seq<Opt> {
    var mode := NormalizedBodyMode(e.bodyMode);
    if mode == "formUrlEncoded" then DataOpt("--data-raw", e.encodedForm)
    else if mode == "multipartForm" then FormOpts(e.parts)
    else if mode == "file" then
      if e.file.Some? && Trim(e.file.value.path) != [] then [Opt("--data-binary", "@" + e.file.value.path)] else []
    else DataOpt("--data-raw", RawBody(e))
  }

  function Opts(e: Example): seq<Opt> {
    HeaderOpts(Headers(e)) + BodyOpts(e)
  }

  function OptLine(o: Opt): string {
    "  " + o.flag + " " + ShellSingleQuote(o.value)
  }

  function OptLines(opts: seq<Opt>): seq<string> {
    if opts == [] then [] else OptLines(opts[..|opts| - 1]) + [OptLine(opts[|opts| - 1])]
  }

  function FirstLine(e: Example): string {
    "curl --request " + ShellSingleQuote(Method(e)) + " " + ShellSingleQuote(e.url)
  }

  function Command(e: Example): string {
    Lines(FirstLine(e), Opts(e))
  }

  // --- reading it back: the words ----------------------------------------------------------------

  /** The words of the options; a line continuation leaves a word of one newline. */
  function OptWords(opts: seq<Opt>): seq<string> {
    if opts == [] then []
    else OptWords(opts[..|opts| - 1]) + ["\n", opts[|opts| - 1].flag, opts[|opts| - 1].value]
  }

  function Words(e: Example): seq<string> {
    Push(["curl", "--request", Method(e)], e.url) + OptWords(Opts(e))
  }

  predicate PlainWord(w: string) {
    w != [] && forall i :: 0 <= i < |w| ==> PlainChar(w[i])
  }

  ghost predicate Writable(opts: seq<Opt>) {
    forall o <- opts :: PlainWord(o.flag) && o.value != []
  }

  lemma ScanSpace(args: seq<string>, current: string)
    ensures Scan(Bare(args, current), " ") == Bare(Push(args, current), [])
  {
    ScanOne(Bare(args, current), ' ');
  }

  lemma ScanContinuation(args: seq<string>, current: string)
    ensures Scan(Bare(args, current), " \\\n") == Bare(Push(args, current), "\n")
  {
    ScanSpace(args, current);
    var s := Bare(Push(args, current), []);
    ScanAppend(Bare(args, current), " ", "\\\n");
    ScanAppend(s, "\\", "\n");
    ScanOne(s, '\\');
    ScanOne(Step(s, '\\'), '\n');
    assert " " + "\\\n" == " \\\n" && "\\" + "\n" == "\\\n";
    assert [] + ['\n'] == "\n";
  }

  /** A word in front of a space, whatever quoting made it. */
  lemma ScanWordSpace(args: seq<string>, text: string, w: string, next: string)
    requires Scan(Bare(args, []), text) == Bare(args, w)
    ensures Scan(Bare(args, []), text + " " + next) == Scan(Bare(Push(args, w), []), next)
  {
    ScanAppend(Bare(args, []), text + " ", next);
    ScanAppend(Bare(args, []), text, " ");
    ScanSpace(args, w);
    hide Scan;
  }

  lemma ScanTwoSpaces(args: seq<string>, current: string, rest: string)
    ensures Scan(Bare(args, current), "  " + rest) == Scan(Bare(Push(args, current), []), rest)
  {
    assert "  " + rest == " " + (" " + rest);
    ScanAppend(Bare(args, current), " ", " " + rest);
    ScanSpace(args, current);
    ScanAppend(Bare(Push(args, current), []), " ", rest);
    ScanSpace(Push(args, current), []);
    hide Scan;
  }

  lemma ScanOption(args: seq<string>, o: Opt)
    requires PlainWord(o.flag)
    ensures Scan(Bare(args, []), o.flag + " " + ShellSingleQuote(o.value)) == Bare(args + [o.flag], o.value)
  {
    hide Scan;
    hide ShellSingleQuote;
    ScanPlain(args, [], o.flag);
    assert [] + o.flag == o.flag && [] + o.value == o.value;
    ScanWordSpace(args, o.flag, o.flag, ShellSingleQuote(o.value));
    ScanQuoted(args + [o.flag], [], o.value);
  }

  lemma ScanOptLine(args: seq<string>, current: string, o: Opt)
    requires PlainWord(o.flag)
    ensures Scan(Bare(args, current), " \\\n" + OptLine(o)) == Bare(Push(args, current) + ["\n", o.flag], o.value)
  {
    hide Scan;
    hide ShellSingleQuote;
    hide PlainWord;
    var before := Push(args, current);
    var rest := o.flag + " " + ShellSingleQuote(o.value);
    ScanAppend(Bare(args, current), " \\\n", OptLine(o));
    ScanContinuation(args, current);
    assert OptLine(o) == "  " + rest;
    ScanTwoSpaces(before, "\n", rest);
    ScanOption(before + ["\n"], o);
    assert before + ["\n"] + [o.flag] == before + ["\n", o.flag];
  }

  lemma ScanFourWords(a: string, b: string, x: string, y: string)
    requires PlainWord(a) && PlainWord(b) && x != []
    ensures Scan(START, a + " " + (b + " " + (ShellSingleQuote(x) + " " + ShellSingleQuote(y)))) == Bare([a, b, x], y)
  {
    hide Scan;
    hide ShellSingleQuote;
    var q, r := ShellSingleQuote(x), ShellSingleQuote(y);
    ScanPlain([], [], a);
    ScanPlain([a], [], b);
    ScanQuoted([a, b], [], x);
    ScanQuoted([a, b, x], [], y);
    assert [] + a == a && [] + b == b && [] + x == x && [] + y == y;
    ScanWordSpace([], a, a, b + " " + (q + " " + r));
    assert [] + [a] == [a] && [a] + [b] == [a, b] && [a, b] + [x] == [a, b, x];
    ScanWordSpace([a], b, b, q + " " + r);
    ScanWordSpace([a, b], q, x, r);
  }

  lemma FirstLineWords(m: string, u: string)
    ensures "curl --request " + m + " " + u == "curl" + " " + ("--request" + " " + (m + " " + u))
  {
    assert "curl --request " == "curl" + " " + "--request" + " ";
  }

  lemma ScanFirstLine(e: Example)
    requires Method(e) != []
    ensures Scan(START, FirstLine(e)) == Bare(["curl", "--request", Method(e)], e.url)
  {
    assert PlainWord("curl") && PlainWord("--request");
    hide Scan;
    hide Method;
    hide PlainWord;
    FirstLineWords(ShellSingleQuote(Method(e)), ShellSingleQuote(e.url));
    ScanFourWords("curl", "--request", Method(e), e.url);
    hide ShellSingleQuote;
  }

  lemma MethodNotEmpty(e: Example)
    ensures Method(e) != []
  {
    TrimIsTrimmed("GET");
  }

  /** The command's first line with the lines of some options. */
  function Lines(first: string, opts: seq<Opt>): string {
    Join([first] + OptLines(opts), " \\\n")
  }

  lemma LinesOfNone(first: string)
    ensures Lines(first, []) == first
  {
    assert [first] + [] == [first];
  }

  lemma Regroup<T>(a: seq<T>, b: seq<T>, c: seq<T>)
    ensures a + b + c == a + (b + c)
  {
  }

  lemma OptLinesSnoc(first: string, opts: seq<Opt>)
    requires opts != []
    ensures var n := |opts| - 1;
            [first] + OptLines(opts) == [first] + OptLines(opts[..n]) + [OptLine(opts[n])]
  {
    var n := |opts| - 1;
    assert OptLines(opts) == OptLines(opts[..n]) + [OptLine(opts[n])];
    hide OptLine;
    hide OptLines;
    Regroup([first], OptLines(opts[..n]), [OptLine(opts[n])]);
  }

  lemma LinesSnoc(first: string, opts: seq<Opt>)
    requires opts != []
    ensures var n := |opts| - 1;
            Lines(first, opts) == Lines(first, opts[..n]) + (" \\\n" + OptLine(opts[n]))
  {
    var n := |opts| - 1;
    OptLinesSnoc(first, opts);
    hide OptLine;
    hide OptLines;
    hide Join;
    JoinSnoc([first] + OptLines(opts[..n]), OptLine(opts[n]), " \\\n");
    Regroup(Join([first] + OptLines(opts[..n]), " \\\n"), " \\\n", OptLine(opts[n]));
  }

  lemma WordsSnoc(before: seq<string>, opts: seq<Opt>)
    requires opts != []
    ensures var n := |opts| - 1;
            before + OptWords(opts[..n]) + ["\n", opts[n].flag] + [opts[n].value] == before + OptWords(opts)
  {
    var n := |opts| - 1;
    assert OptWords(opts) == OptWords(opts[..n]) + ["\n", opts[n].flag, opts[n].value];
    hide OptWords;
    Regroup(before, OptWords(opts[..n]), ["\n", opts[n].flag]);
    Regroup(before, OptWords(opts[..n]) + ["\n", opts[n].flag], [opts[n].value]);
    Regroup(OptWords(opts[..n]), ["\n", opts[n].flag], [opts[n].value]);
    assert ["\n", opts[n].flag] + [opts[n].value] == ["\n", opts[n].flag, opts[n].value];
  }

  lemma LineScanned(text: string, args: seq<string>, current: string, o: Opt)
    requires PlainWord(o.flag) && o.value != [] && Scan(START, text) == Bare(args, current)
    ensures Scan(START, text + (" \\\n" + OptLine(o))) == Bare(Push(args, current) + ["\n", o.flag], o.value)
    ensures Push(Push(args, current) + ["\n", o.flag], o.value) == Push(args, current) + ["\n", o.flag] + [o.value]
  {
    hide Scan;
    hide OptLine;
    hide PlainWord;
    ScanAppend(START, text, " \\\n" + OptLine(o));
    ScanOptLine(args, current, o);
  }

  /** Scanning the command's lines; the last word is still open. */
  lemma {:induction false} ScanLines(start: seq<string>, current: string, first: string, opts: seq<Opt>)
    requires Writable(opts) && Scan(START, first) == Bare(start, current)
    ensures var s := Scan(START, Lines(first, opts));
            s == Bare(s.args, s.current) && Push(s.args, s.current) == Push(start, current) + OptWords(opts)
    decreases |opts|
  {
    if opts == [] {
      LinesOfNone(first);
      assert Push(start, current) + [] == Push(start, current);
    } else {
      hide Scan;
      hide Lines;
      hide OptLine;
      hide PlainWord;
      var n := |opts| - 1;
      assert opts[n] in opts && forall p <- opts[..n] :: p in opts;
      ScanLines(start, current, first, opts[..n]);
      LinesSnoc(first, opts);
      WordsSnoc(Push(start, current), opts);
      hide OptWords;
      hide Push;
      var s := Scan(START, Lines(first, opts[..n]));
      LineScanned(Lines(first, opts[..n]), s.args, s.current, opts[n]);
    }
  }

  lemma {:induction false} LinesStart(first: string, opts: seq<Opt>)
    requires first != []
    ensures var t := Lines(first, opts); t != [] && t[0] == first[0]
  {
    if opts == [] {
      LinesOfNone(first);
    } else {
      LinesStart(first, opts[..|opts| - 1]);
      LinesSnoc(first, opts);
      hide Lines;
    }
  }

  predicate EndsQuoted(t: string) {
    t != [] && t[|t| - 1] == '\''
  }

  lemma LinesEnd(first: string, opts: seq<Opt>)
    requires EndsQuoted(first)
    ensures EndsQuoted(Lines(first, opts))
  {
    if opts == [] {
      LinesOfNone(first);
    } else {
      LinesSnoc(first, opts);
      hide Lines;
      assert EndsQuoted(ShellSingleQuote(opts[|opts| - 1].value));
    }
  }

  lemma FirstLineEnds(e: Example)
    ensures FirstLine(e) != [] && FirstLine(e)[0] == 'c' && EndsQuoted(FirstLine(e))
  {
    hide Method;
    assert EndsQuoted(ShellSingleQuote(e.url));
    hide ShellSingleQuote;
    var q := ShellSingleQuote(e.url);
    assert FirstLine(e) == "curl --request " + ShellSingleQuote(Method(e)) + " " + q;
    assert FirstLine(e)[0] == "curl --request "[0];
  }

  lemma CommandIsTrimmed(e: Example)
    ensures Trim(Command(e)) == Command(e)
  {
    hide FirstLine;
    hide Opts;
    hide Lines;
    hide Trim;
    FirstLineEnds(e);
    LinesStart(FirstLine(e), Opts(e));
    LinesEnd(FirstLine(e), Opts(e));
    assert Command(e) == Lines(FirstLine(e), Opts(e));
    QuotedIsTrimmed(Command(e));
  }

  lemma QuotedIsTrimmed(t: string)
    requires EndsQuoted(t) && t[0] == 'c'
    ensures Trim(t) == t
  {
    TrimIsTrimmed(t);
    hide Trim;
  }

  lemma {:induction false} HeaderOptsWritable(headers: seq<KeyValue>)
    ensures Writable(HeaderOpts(headers))
  {
    if headers != [] {
      HeaderOptsWritable(headers[..|headers| - 1]);
      FlagsArePlain();
    }
  }

  lemma {:induction false} FormOptsWritable(parts: seq<Part>)
    ensures Writable(FormOpts(parts))
  {
    if parts != [] {
      FormOptsWritable(parts[..|parts| - 1]);
      FlagsArePlain();
    }
  }

  lemma FlagsArePlain()
    ensures PlainWord("--header") && PlainWord("--form") && PlainWord("--data-raw") && PlainWord("--data-binary")
  {
  }

  lemma OptsWritable(e: Example)
    ensures Writable(Opts(e))
  {
    HeaderOptsWritable(Headers(e));
    FormOptsWritable(e.parts);
    FlagsArePlain();
    hide HeaderOpts;
    hide FormOpts;
    hide Headers;
    hide PlainWord;
  }

  /** The generated command splits into its words, an empty URL leaving none. */
  lemma CommandWords(e: Example)
    ensures SplitArgs(Command(e)) == Some(Words(e))
  {
    CommandIsTrimmed(e);
    OptsWritable(e);
    MethodNotEmpty(e);
    ScanFirstLine(e);
    hide Scan;
    hide Trim;
    hide Lines;
    hide FirstLine;
    hide Opts;
    hide Method;
    ScanLines(["curl", "--request", Method(e)], e.url, FirstLine(e), Opts(e));
  }

  // --- reading it back: the request --------------------------------------------------------------

  /** The item being imported. A body is none, a text, or a form of named parts. */
  datatype Item = Item(
    verb: string, url: string, headers: seq<KeyValue>, mode: string, text: string,
    form: seq<(string, string)>, user: Option<(string, string)>, warned: bool)

  const NEW_ITEM: Item := Item("GET", "", [], "none", "", [], None, false)

  function Cut(s: string, sep: char): (string, string) {
    var i := Find(s, sep);
    if i == |s| then (s, []) else (s[..i], s[i + 1..])
  }

  function Posted(verb: string): string {
    if verb == "GET" then "POST" else verb
  }

  predicate IsData(flag: string) {
    flag == "-d" || flag == "--data" || flag == "--data-raw" || flag == "--data-binary" || flag == "--data-ascii"
  }

  predicate TakesValue(flag: string) {
    || flag == "-X" || flag == "--request" || flag == "-H" || flag == "--header" || IsData(flag)
    || flag == "-F" || flag == "--form" || flag == "-u" || flag == "--user" || flag == "--url"
  }

  function ReadOpt(item: Item, flag: string, value: string): Item {
    if flag == "-X" || flag == "--request" then item.(verb := Upper(value))
    else if flag == "-H" || flag == "--header" then
      if ':' in value
      then item.(headers := item.headers + [KeyValue(Trim(Cut(value, ':').0), Trim(Cut(value, ':').1), true)])
      else item
    else if IsData(flag) then item.(mode := "text", text := value, form := [], verb := Posted(item.verb))
    else if flag == "-F" || flag == "--form" then
      item.(mode := "multipartForm", form := item.form + [(Trim(Cut(value, '=').0), Cut(value, '=').1)], verb := Posted(item.verb))
    else if flag == "-u" || flag == "--user" then item.(user := Some(Cut(value, ':')))
    else item.(url := value)
  }

  predicate HttpUrl(s: string) {
    "http://" <= s || "https://" <= s
  }

  function ReadWord(item: Item, word: string): Item {
    if HttpUrl(word) then item.(url := word)
    else if word != [] && word[0] == '-' then item.(warned := true)
    else item
  }

  function Read(item: Item, args: seq<string>): Item
    decreases |args|
  {
    if args == [] then item
    else if TakesValue(args[0]) then
      if |args| == 1 then item else Read(ReadOpt(item, args[0], args[1]), args[2..])
    else Read(ReadWord(item, args[0]), args[1..])
  }

  function Import(command: string): Option<Item> {
    var args := SplitArgs(command);
    if args.None? || args.value == [] || Lower(args.value[0]) != "curl" then None
    else
      var item := Read(NEW_ITEM, args.value[1..]);
      if Trim(item.url) == [] then None else Some(item)
  }

  function ReadOpts(item: Item, opts: seq<Opt>): Item {
    if opts == [] then item
    else
      var n := |opts| - 1;
      ReadOpt(ReadOpts(item, opts[..n]), opts[n].flag, opts[n].value)
  }

  lemma ReadPair(item: Item, flag: string, value: string, rest: seq<string>)
    requires TakesValue(flag)
    ensures Read(item, [flag, value] + rest) == Read(ReadOpt(item, flag, value), rest)
  {
    var args := [flag, value] + rest;
    assert args[2..] == rest;
  }

  lemma ReadOther(item: Item, word: string, rest: seq<string>)
    requires !TakesValue(word)
    ensures Read(item, [word] + rest) == Read(ReadWord(item, word), rest)
  {
    var args := [word] + rest;
    assert args[1..] == rest;
  }

  lemma NewlineIsNothing(item: Item)
    ensures !TakesValue("\n") && ReadWord(item, "\n") == item
  {
  }

  lemma {:induction false} OptWordsCons(opts: seq<Opt>)
    requires opts != []
    ensures OptWords(opts) == ["\n"] + ([opts[0].flag, opts[0].value] + OptWords(opts[1..]))
  {
    var n := |opts| - 1;
    if n == 0 {
      assert OptWords(opts[..0]) == [] && OptWords(opts[1..]) == [];
    } else {
      OptWordsCons(opts[..n]);
      assert opts[..n][1..] == opts[1..][..n - 1];
      assert opts[1..][n - 1] == opts[n];
      var middle := OptWords(opts[1..][..n - 1]);
      assert OptWords(opts[1..]) == middle + ["\n", opts[n].flag, opts[n].value];
      assert OptWords(opts) == ["\n"] + ([opts[0].flag, opts[0].value] + middle) + ["\n", opts[n].flag, opts[n].value];
    }
  }

  lemma {:induction false} ReadOptsCons(item: Item, opts: seq<Opt>)
    requires opts != []
    ensures ReadOpts(item, opts) == ReadOpts(ReadOpt(item, opts[0].flag, opts[0].value), opts[1..])
  {
    hide ReadOpt;
    var n := |opts| - 1;
    if n == 0 {
      assert opts[..0] == [] && opts[1..] == [];
    } else {
      ReadOptsCons(item, opts[..n]);
      assert opts[..n][1..] == opts[1..][..n - 1];
      assert opts[1..][n - 1] == opts[n];
    }
  }

  lemma {:induction false} ReadOptWords(item: Item, opts: seq<Opt>)
    requires forall o <- opts :: TakesValue(o.flag)
    ensures Read(item, OptWords(opts)) == ReadOpts(item, opts)
    decreases |opts|
  {
    if opts != [] {
      var o := opts[0];
      OptWordsCons(opts);
      NewlineIsNothing(item);
      ReadOther(item, "\n", [o.flag, o.value] + OptWords(opts[1..]));
      ReadPair(item, o.flag, o.value, OptWords(opts[1..]));
      ReadOptsCons(item, opts);
      hide Read;
      hide ReadOpt;
      hide ReadOpts;
      hide OptWords;
      hide TakesValue;
      ReadOptWords(ReadOpt(item, o.flag, o.value), opts[1..]);
    }
  }

  // --- the round trip ----------------------------------------------------------------------------

  /** A header as it comes back: cut at the first colon, both sides trimmed. */
  function HeaderBack(h: KeyValue): KeyValue {
    var t := Trim(h.name) + ": " + h.value;
    KeyValue(Trim(Cut(t, ':').0), Trim(Cut(t, ':').1), true)
  }

  function HeadersBack(headers: seq<KeyValue>): (r: seq<KeyValue>)
    ensures |r| == |headers|
  {
    seq(|headers|, i requires 0 <= i < |headers| => HeaderBack(headers[i]))
  }

  /** A header comes back as it was exactly when its name holds no colon and its value no
      outer space. */
  lemma HeaderComesBack(h: KeyValue)
    requires h.enabled && Trim(h.name) == h.name
    ensures HeaderBack(h) == h <==> ':' !in h.name && Trimmed(h.value)
  {
    var t := h.name + ": " + h.value;
    if ':' !in h.name {
      FindAppend(h.name, ':', " " + h.value);
      assert h.name + [':'] + (" " + h.value) == t;
      assert t[..|h.name|] == h.name && t[|h.name| + 1..] == " " + h.value;
      TrimLeading(' ', h.value);
      TrimIsTrimmed(h.value);
      hide Find;
      hide Trim;
    } else {
      var i := Find(t, ':');
      assert i < |h.name| by { assert t[Find(h.name, ':')] == ':'; assert Find(h.name, ':') < |h.name|; FindAtMost(t, ':', Find(h.name, ':')); }
      assert Cut(t, ':').0 == t[..i];
      TrimShortens(t[..i]);
    }
  }

  lemma TrimShortens(s: string)
    ensures |Trim(s)| <= |s|
  {
    var t := TrimLeft(s);
    assert TrimRight(t) <= t;
  }

  lemma {:induction false} HeadersAsRead(item: Item, headers: seq<KeyValue>)
    ensures ReadOpts(item, HeaderOpts(headers)) == item.(headers := item.headers + HeadersBack(headers))
  {
    hide ReadOpt;
    hide HeaderBack;
    if headers == [] {
      assert item.headers + [] == item.headers;
    } else {
      var n := |headers| - 1;
      HeadersAsRead(item, headers[..n]);
      HeaderRead(item.(headers := item.headers + HeadersBack(headers[..n])), headers[n]);
      ReadOptsNext(item, HeaderOpts(headers[..n]), HeaderOpt(headers[n]));
      hide ReadOpts;
      hide HeaderOpt;
      assert HeadersBack(headers) == HeadersBack(headers[..n]) + [HeaderBack(headers[n])];
      assert item.headers + HeadersBack(headers[..n]) + [HeaderBack(headers[n])] == item.headers + HeadersBack(headers);
    }
  }

  lemma ReadOptsNext(item: Item, opts: seq<Opt>, o: Opt)
    ensures ReadOpts(item, opts + [o]) == ReadOpt(ReadOpts(item, opts), o.flag, o.value)
  {
    hide ReadOpt;
    assert (opts + [o])[..|opts|] == opts;
  }

  lemma HeaderRead(item: Item, h: KeyValue)
    ensures ReadOpt(item, "--header", HeaderOpt(h).value) == item.(headers := item.headers + [HeaderBack(h)])
  {
    var t := Trim(h.name) + ": " + h.value;
    assert t[|Trim(h.name)|] == ':';
  }

  /** A form part as it comes back: a file becomes a text starting with an at sign. */
  function PartsBack(parts: seq<Part>): seq<(string, string)> {
    if parts == [] then []
    else
      var n := |parts| - 1;
      PartsBack(parts[..n]) + if Sent(parts[n]) then [PartBack(parts[n])] else []
  }

  /** A text part comes back as it was exactly when its name holds no equals sign. */
  lemma PartComesBack(p: Part)
    requires Sent(p) && Trim(p.name) == p.name && Trim(p.filePath) == []
    ensures PartBack(p) == (p.name, p.value) <==> '=' !in p.name
  {
    var t := p.name + "=" + p.value;
    if '=' !in p.name {
      FindAppend(p.name, '=', p.value);
      assert t == p.name + ['='] + p.value;
      assert t[..|p.name|] == p.name && t[|p.name| + 1..] == p.value;
    } else {
      var k := Find(p.name, '=');
      assert t[k] == '=';
      FindAtMost(t, '=', k);
      TrimShortens(t[..Find(t, '=')]);
    }
  }

  /** An item that has read the given form parts. */
  function WithForm(item: Item, opts: seq<Opt>, form: seq<(string, string)>): Item {
    if opts == [] then item else item.(mode := "multipartForm", form := item.form + form, verb := Posted(item.verb))
  }

  function PartBack(p: Part): (string, string) {
    (Trim(Cut(FormPart(p), '=').0), Cut(FormPart(p), '=').1)
  }

  lemma {:induction false} FormAsRead(item: Item, parts: seq<Part>)
    ensures ReadOpts(item, FormOpts(parts)) == WithForm(item, FormOpts(parts), PartsBack(parts))
    ensures FormOpts(parts) == [] <==> PartsBack(parts) == []
  {
    if parts != [] {
      var n := |parts| - 1;
      var opts := FormOpts(parts[..n]);
      FormAsRead(item, parts[..n]);
      if Sent(parts[n]) {
        var o := Opt("--form", FormPart(parts[n]));
        ReadOptsNext(item, opts, o);
        FormRead(item, opts, PartsBack(parts[..n]), parts[n]);
        hide ReadOpts;
        hide ReadOpt;
        hide PartBack;
        hide WithForm;
        hide FormPart;
        assert FormOpts(parts) == opts + [o];
      } else {
        assert FormOpts(parts) == opts;
        assert PartsBack(parts) == PartsBack(parts[..n]);
      }
    }
  }

  lemma FormRead(item: Item, opts: seq<Opt>, form: seq<(string, string)>, p: Part)
    requires opts == [] <==> form == []
    ensures var o := Opt("--form", FormPart(p));
            ReadOpt(WithForm(item, opts, form), o.flag, o.value) == WithForm(item, opts + [o], form + [PartBack(p)])
  {
    hide Cut;
    hide FormPart;
    hide Trim;
    assert item.form + form + [PartBack(p)] == item.form + (form + [PartBack(p)]);
    assert form == [] ==> item.form + form == item.form;
  }

  lemma {:induction false} ReadOptsAppend(item: Item, a: seq<Opt>, b: seq<Opt>)
    ensures ReadOpts(item, a + b) == ReadOpts(ReadOpts(item, a), b)
  {
    hide ReadOpt;
    if b == [] {
      assert a + b == a;
    } else {
      var n := |b| - 1;
      assert (a + b)[..|a| + n] == a + b[..n];
      ReadOptsAppend(item, a, b[..n]);
    }
  }

  lemma {:induction false} FormTakesValue(parts: seq<Part>)
    ensures forall o <- FormOpts(parts) :: o.flag == "--form"
  {
    if parts != [] {
      FormTakesValue(parts[..|parts| - 1]);
    }
  }

  lemma {:induction false} HeaderTakesValue(headers: seq<KeyValue>)
    ensures forall o <- HeaderOpts(headers) :: o.flag == "--header"
  {
    if headers != [] {
      HeaderTakesValue(headers[..|headers| - 1]);
    }
  }

  lemma OptsTakeValue(e: Example)
    ensures forall o <- Opts(e) :: TakesValue(o.flag) && o.flag != "--url"
  {
    HeaderTakesValue(Headers(e));
    FormTakesValue(e.parts);
    hide HeaderOpts;
    hide FormOpts;
    hide Headers;
  }

  function Started(e: Example): Item {
    NEW_ITEM.(verb := Method(e), url := e.url)
  }

  lemma ReadMethod(e: Example)
    ensures TakesValue("--request") && ReadOpt(NEW_ITEM, "--request", Method(e)) == NEW_ITEM.(verb := Method(e))
  {
    UpperTwice(Trim(if Trim(e.verb) == [] then "GET" else e.verb));
    hide Upper;
    hide Trim;
  }

  lemma ReadUrl(item: Item, url: string)
    requires HttpUrl(url)
    ensures !TakesValue(url) && ReadWord(item, url) == item.(url := url) && url != []
  {
    assert url[0] == 'h';
  }

  lemma WordsSplit(e: Example)
    requires e.url != []
    ensures Words(e)[..1] == ["curl"]
    ensures Words(e)[1..] == ["--request", Method(e)] + ([e.url] + OptWords(Opts(e)))
  {
    hide OptWords;
    hide Opts;
    hide Method;
    var words := OptWords(Opts(e));
    assert Push(["curl", "--request", Method(e)], e.url) == ["curl"] + ["--request", Method(e)] + [e.url];
    assert Words(e) == ["curl"] + (["--request", Method(e)] + ([e.url] + words));
  }

  lemma ReadCommand(e: Example)
    requires HttpUrl(e.url)
    ensures Words(e) != [] && Words(e)[0] == "curl" && Read(NEW_ITEM, Words(e)[1..]) == ReadOpts(Started(e), Opts(e))
  {
    var words := OptWords(Opts(e));
    OptsTakeValue(e);
    ReadUrl(NEW_ITEM.(verb := Method(e)), e.url);
    ReadMethod(e);
    hide Read;
    hide ReadOpts;
    hide ReadOpt;
    hide ReadWord;
    hide TakesValue;
    hide HttpUrl;
    hide OptWords;
    hide Opts;
    hide Method;
    WordsSplit(e);
    assert Words(e)[0] == Words(e)[..1][0];
    hide Words;
    ReadPair(NEW_ITEM, "--request", Method(e), [e.url] + words);
    ReadOther(NEW_ITEM.(verb := Method(e)), e.url, words);
    ReadOptWords(Started(e), Opts(e));
  }

  lemma CurlIsLower()
    ensures Lower("curl") == "curl"
  {
  }

  lemma ImportOfWords(text: string, args: seq<string>)
    requires SplitArgs(text) == Some(args) && args != [] && args[0] == "curl"
    ensures var item := Read(NEW_ITEM, args[1..]);
            Import(text) == if Trim(item.url) == [] then None else Some(item)
  {
    CurlIsLower();
    hide SplitArgs;
    hide Lower;
    hide Read;
    hide Trim;
  }

  lemma ImportOf(e: Example)
    requires HttpUrl(e.url)
    ensures var item := ReadOpts(ReadOpts(Started(e), HeaderOpts(Headers(e))), BodyOpts(e));
            Import(Command(e)) == if Trim(item.url) == [] then None else Some(item)
  {
    CommandWords(e);
    ReadCommand(e);
    ReadOptsAppend(Started(e), HeaderOpts(Headers(e)), BodyOpts(e));
    ImportOfWords(Command(e), Words(e));
    hide Import;
    hide Words;
    hide Command;
    hide SplitArgs;
    hide Read;
    hide ReadOpts;
    hide Headers;
    hide HeaderOpts;
    hide BodyOpts;
    hide Trim;
    hide Started;
    hide Lower;
  }

  /** What the import of a generated command is, for an http URL: the method unless a body
      turns a GET into a POST, the URL, every header as it comes back, and the body. */
  lemma ImportedBack(e: Example)
    requires HttpUrl(e.url)
    ensures var r := Import(Command(e));
            var mode := NormalizedBodyMode(e.bodyMode);
            && r.Some? && r.value.url == e.url && r.value.user == None && !r.value.warned
            && r.value.headers == HeadersBack(Headers(e))
            && r.value.verb == (if BodyOpts(e) == [] then Method(e) else Posted(Method(e)))
            && (BodyOpts(e) == [] ==> r.value.mode == "none" && r.value.text == "" && r.value.form == [])
            && (BodyOpts(e) != [] && mode != "multipartForm" ==>
                  r.value.mode == "text" && r.value.form == [] && r.value.text == BodyOpts(e)[0].value)
            && (mode == "multipartForm" ==> r.value.form == PartsBack(e.parts) && r.value.text == "")
  {
    ImportOf(e);
    HeadersAsRead(Started(e), Headers(e));
    NotBlank(e.url);
    hide Import;
    hide Command;
    hide Headers;
    hide Method;
    hide HeadersBack;
    hide HeaderOpts;
    hide Trim;
    hide HttpUrl;
    assert [] + HeadersBack(Headers(e)) == HeadersBack(Headers(e));
    BodyAsRead(e, Started(e).(headers := HeadersBack(Headers(e))));
    hide BodyOpts;
    hide ReadOpts;
    hide PartsBack;
  }

  lemma NotBlank(url: string)
    requires HttpUrl(url)
    ensures Trim(url) != []
  {
    assert url[0] == 'h';
    assert TrimLeft(url) == url;
    TrimRightAppend([], url);
    TrimRightKeeps(url);
  }

  lemma {:induction false} TrimRightKeeps(s: string)
    requires s != [] && !IsSpace(s[0])
    ensures TrimRight(s) != []
  {
    if IsSpace(s[|s| - 1]) {
      TrimRightKeeps(s[..|s| - 1]);
    }
  }

  lemma BodyAsRead(e: Example, item: Item)
    requires item.mode == "none" && item.text == "" && item.form == []
    ensures var r := ReadOpts(item, BodyOpts(e));
            var mode := NormalizedBodyMode(e.bodyMode);
            && r.url == item.url && r.user == item.user && r.warned == item.warned && r.headers == item.headers
            && r.verb == (if BodyOpts(e) == [] then item.verb else Posted(item.verb))
            && (BodyOpts(e) == [] ==> r == item)
            && (BodyOpts(e) != [] && mode != "multipartForm" ==>
                  r.mode == "text" && r.form == [] && r.text == BodyOpts(e)[0].value)
            && (mode == "multipartForm" ==> r.form == PartsBack(e.parts) && r.text == "")
  {
    if NormalizedBodyMode(e.bodyMode) == "multipartForm" {
      FormAsRead(item, e.parts);
      assert [] + PartsBack(e.parts) == PartsBack(e.parts);
    } else if BodyOpts(e) != [] {
      var o := BodyOpts(e)[0];
      assert IsData(o.flag);
      assert BodyOpts(e) == [o];
      assert BodyOpts(e)[..0] == [];
      assert ReadOpts(item, [o]) == ReadOpt(ReadOpts(item, [o][..0]), o.flag, o.value);
    }
  }

  /** The whole request comes back, body and all, exactly when no header name holds a colon,
      every header value is trimmed, and a body does not go with GET. */
  lemma RoundTrip(e: Example)
    requires HttpUrl(e.url) && NormalizedBodyMode(e.bodyMode) !in {"formUrlEncoded", "multipartForm", "file"}
    ensures var r := Import(Command(e));
            r.Some? &&
            (r.value.verb == Method(e) && r.value.url == e.url && r.value.headers == Headers(e) && r.value.text == RawBody(e) <==>
             (forall h <- Headers(e) :: ':' !in h.name && Trimmed(h.value)) && (RawBody(e) == "" || Method(e) != "GET"))
  {
    ImportedBack(e);
    HeadersTrimmed(e);
    var headers := Headers(e);
    hide Import;
    hide Command;
    hide Headers;
    hide RawBody;
    hide Method;
    forall h <- headers
      ensures HeaderBack(h) == h <==> ':' !in h.name && Trimmed(h.value)
    {
      HeaderComesBack(h);
    }
    hide HeaderBack;
    hide Trimmed;
    AllBack(headers);
  }

  lemma AllBack(headers: seq<KeyValue>)
    ensures HeadersBack(headers) == headers <==> forall h <- headers :: HeaderBack(h) == h
  {
    hide HeaderBack;
    if HeadersBack(headers) == headers {
      forall h <- headers
        ensures HeaderBack(h) == h
      {
        var i :| 0 <= i < |headers| && headers[i] == h;
        assert HeadersBack(headers)[i] == headers[i];
      }
    }
  }

  lemma {:induction false} EnabledTrimmed(rows: seq<KeyValue>)
    ensures forall h <- EnabledKeyValues(rows) :: h.enabled && Trim(h.name) == h.name
  {
    if rows != [] {
      EnabledTrimmed(rows[..|rows| - 1]);
      TrimIsTrimmed(rows[|rows| - 1].name);
      TrimIsTrimmed(Trim(rows[|rows| - 1].name));
      hide Trim;
    }
  }

  lemma HeadersTrimmed(e: Example)
    ensures forall h <- Headers(e) :: h.enabled && Trim(h.name) == h.name
  {
    EnabledTrimmed(e.headers);
    TrimIsTrimmed("Content-Type");
    hide AutoContentType;
    hide EnabledKeyValues;
    hide HasHeaderName;
    hide Trim;
  }

  // --- when the import succeeds ------------------------------------------------------------------

  lemma {:induction false} ReadOptsKeepsUrl(item: Item, opts: seq<Opt>)
    requires forall o <- opts :: TakesValue(o.flag) && o.flag != "--url"
    ensures ReadOpts(item, opts).url == item.url
  {
    if opts != [] {
      var n := |opts| - 1;
      assert opts[n] in opts;
      ReadOptsKeepsUrl(item, opts[..n]);
      hide Cut;
    }
  }

  lemma NewlineIsBlank()
    ensures Trim("\n") == "" && Trim("") == ""
  {
    TrimLeading('\n', "");
    assert ['\n'] + "" == "\n";
  }

  lemma ReadOptKeepsUrl(item: Item, flag: string, value: string)
    requires TakesValue(flag)
    ensures ReadOpt(item, flag, value).url == if flag == "--url" then value else item.url
  {
    hide Cut;
    hide Trim;
    hide Upper;
  }

  /** Without an http URL nothing the command holds sets one: at worst the URL is taken for
      a switch that swallows the line break after it. */
  lemma NoUrlRead(e: Example, item: Item)
    requires !HttpUrl(e.url) && item.url == ""
    ensures Trim(Read(item, Push([], e.url) + OptWords(Opts(e))).url) == ""
  {
    var opts := Opts(e);
    OptsTakeValue(e);
    NewlineIsBlank();
    hide Opts;
    hide Trim;
    if e.url == [] {
      assert [] + OptWords(opts) == OptWords(opts);
      ReadOptWords(item, opts);
      ReadOptsKeepsUrl(item, opts);
    } else if !TakesValue(e.url) {
      assert Push([], e.url) == [e.url];
      ReadOther(item, e.url, OptWords(opts));
      ReadOptWords(ReadWord(item, e.url), opts);
      ReadOptsKeepsUrl(ReadWord(item, e.url), opts);
      hide Read;
      hide ReadOpts;
      hide TakesValue;
    } else if opts == [] {
      assert Push([], e.url) + [] == [e.url];
      assert Read(item, [e.url]) == item;
    } else {
      SwallowedBreak(e.url, opts, item);
    }
  }

  lemma SwallowedBreak(flag: string, opts: seq<Opt>, item: Item)
    requires TakesValue(flag) && opts != [] && item.url == "" && flag != []
    requires forall o <- opts :: TakesValue(o.flag) && o.flag != "--url"
    ensures Trim(Read(item, Push([], flag) + OptWords(opts)).url) == ""
  {
    var o, rest := opts[0], OptWords(opts[1..]);
    NewlineIsBlank();
    hide Trim;
    OptWordsCons(opts);
    assert Push([], flag) + OptWords(opts) == [flag, "\n"] + ([o.flag, o.value] + rest);
    ReadPair(item, flag, "\n", [o.flag, o.value] + rest);
    ReadOptKeepsUrl(item, flag, "\n");
    var next := ReadOpt(item, flag, "\n");
    ReadPair(next, o.flag, o.value, rest);
    ReadOptKeepsUrl(next, o.flag, o.value);
    hide Read;
    hide ReadOpt;
    hide TakesValue;
    ReadOptWords(ReadOpt(next, o.flag, o.value), opts[1..]);
    ReadOptsKeepsUrl(ReadOpt(next, o.flag, o.value), opts[1..]);
  }

  lemma WordsParts(e: Example)
    ensures Words(e)[..1] == ["curl"]
    ensures Words(e)[1..] == ["--request", Method(e)] + (Push([], e.url) + OptWords(Opts(e)))
  {
    hide OptWords;
    hide Opts;
    hide Method;
    var rest := Push([], e.url) + OptWords(Opts(e));
    assert Push(["curl", "--request", Method(e)], e.url) == ["curl"] + ["--request", Method(e)] + Push([], e.url);
    assert Words(e) == ["curl"] + (["--request", Method(e)] + rest);
  }

  lemma ReadWithoutUrl(e: Example)
    requires !HttpUrl(e.url)
    ensures Words(e) != [] && Words(e)[0] == "curl" && Trim(Read(NEW_ITEM, Words(e)[1..]).url) == []
  {
    WordsParts(e);
    ReadMethod(e);
    var rest := Push([], e.url) + OptWords(Opts(e));
    assert Words(e)[0] == Words(e)[..1][0];
    hide Words;
    hide OptWords;
    hide Opts;
    hide Method;
    hide Trim;
    hide HttpUrl;
    hide ReadOpt;
    hide TakesValue;
    hide Read;
    hide Push;
    ReadPair(NEW_ITEM, "--request", Method(e), rest);
    NoUrlRead(e, NEW_ITEM.(verb := Method(e)));
  }

  /** A generated command imports exactly when its URL is an http or https one. */
  lemma ImportsIffHttp(e: Example)
    ensures Import(Command(e)).Some? <==> HttpUrl(e.url)
  {
    if HttpUrl(e.url) {
      ImportedBack(e);
    } else {
      CommandWords(e);
      ReadWithoutUrl(e);
      hide Words;
      hide Command;
      hide Import;
      hide Trim;
      hide HttpUrl;
      hide Read;
      ImportOfWords(Command(e), Words(e));
    }
  }

  // --- as the source runs it ---------------------------------------------------------------------

  lemma {:induction false} OptLinesAppend(a: seq<Opt>, b: seq<Opt>)
    ensures OptLines(a + b) == OptLines(a) + OptLines(b)
  {
    hide OptLine;
    if b == [] {
      assert a + b == a;
    } else {
      var n := |b| - 1;
      assert (a + b)[..|a| + n] == a + b[..n];
      OptLinesAppend(a, b[..n]);
    }
  }

  lemma OptLinesNext(opts: seq<Opt>, o: Opt, line: string)
    requires line == "  " + o.flag + " " + ShellSingleQuote(o.value)
    ensures OptLines(opts + [o]) == OptLines(opts) + [line]
  {
    hide ShellSingleQuote;
    assert (opts + [o])[..|opts|] == opts;
  }

  method HeaderLines(headers: seq<KeyValue>) returns (lines: seq<string>)
    ensures lines == OptLines(HeaderOpts(headers))
  {
    lines := [];
    for i := 0 to |headers|
      invariant lines == OptLines(HeaderOpts(headers[..i]))
    {
      var value := Trim(headers[i].name) + ": " + headers[i].value;
      var line := "  --header " + ShellSingleQuote(value);
      assert "  --header " == "  " + "--header" + " ";
      assert headers[..i + 1][..i] == headers[..i];
      hide ShellSingleQuote;
      OptLinesNext(HeaderOpts(headers[..i]), HeaderOpt(headers[i]), line);
      hide OptLines;
      lines := lines + [line];
    }
    assert headers[..|headers|] == headers;
  }

  method FormLines(parts: seq<Part>) returns (lines: seq<string>)
    ensures lines == OptLines(FormOpts(parts))
  {
    lines := [];
    for i := 0 to |parts|
      invariant lines == OptLines(FormOpts(parts[..i]))
    {
      assert parts[..i + 1][..i] == parts[..i];
      hide FormPart;
      hide Trim;
      ghost var opts := FormOpts(parts[..i]);
      assert FormOpts(parts[..i + 1]) == opts + if Sent(parts[i]) then [Opt("--form", FormPart(parts[i]))] else [];
      hide FormOpts;
      if !parts[i].enabled || Trim(parts[i].name) == [] {
        assert opts + [] == opts;
        continue;
      }
      var line := "  --form " + ShellSingleQuote(FormPart(parts[i]));
      assert "  --form " == "  " + "--form" + " ";
      hide ShellSingleQuote;
      OptLinesNext(opts, Opt("--form", FormPart(parts[i])), line);
      hide OptLines;
      lines := lines + [line];
    }
    assert parts[..|parts|] == parts;
  }

  lemma OneLine(o: Opt, line: string)
    requires line == "  " + o.flag + " " + ShellSingleQuote(o.value)
    ensures OptLines([o]) == [line]
  {
    OptLinesNext([], o, line);
    assert [] + [o] == [o];
  }

  method BodyLines(e: Example) returns (lines: seq<string>)
    ensures lines == OptLines(BodyOpts(e))
  {
    lines := [];
    assert OptLines([]) == [];
    hide OptLines;
    hide RawBody;
    assert "  --data-raw " == "  " + "--data-raw" + " " && "  --data-binary " == "  " + "--data-binary" + " ";
    var mode := NormalizedBodyMode(e.bodyMode);
    if mode == "formUrlEncoded" {
      if e.encodedForm != [] {
        lines := ["  --data-raw " + ShellSingleQuote(e.encodedForm)];
        OneLine(Opt("--data-raw", e.encodedForm), lines[0]);
      }
    } else if mode == "multipartForm" {
      lines := FormLines(e.parts);
    } else if mode == "file" {
      if e.file.Some? && Trim(e.file.value.path) != [] {
        lines := ["  --data-binary " + ShellSingleQuote("@" + e.file.value.path)];
        OneLine(Opt("--data-binary", "@" + e.file.value.path), lines[0]);
      }
    } else {
      var body := RawBody(e);
      if body != [] {
        lines := ["  --data-raw " + ShellSingleQuote(body)];
        OneLine(Opt("--data-raw", body), lines[0]);
      }
    }
  }

  method SentHeaders(e: Example) returns (headers: seq<KeyValue>)
    ensures headers == Headers(e)
  {
    headers := EnabledKeyValues(e.headers);
    var auto := AutoContentType(e);
    if auto != [] && !HasHeaderName(headers, "content-type") {
      headers := headers + [KeyValue("Content-Type", auto, true)];
    }
  }

  method GenerateCurl(e: Example) returns (command: string)
    ensures command == Command(e)
  {
    var headers := SentHeaders(e);
    hide OptLine;
    hide Headers;
    hide FirstLine;
    hide BodyOpts;
    hide HeaderOpts;
    hide OptLines;
    hide Join;
    OptLinesAppend(HeaderOpts(headers), BodyOpts(e));
    var lines := [FirstLine(e)];
    var headerLines := HeaderLines(headers);
    lines := lines + headerLines;
    var bodyLines := BodyLines(e);
    lines := lines + bodyLines;
    assert lines == [FirstLine(e)] + (headerLines + bodyLines);
    command := Join(lines, " \\\n");
  }

  lemma ReadNext(item: Item, args: seq<string>, i: nat)
    requires i < |args|
    ensures TakesValue(args[i]) && i + 1 < |args| ==> Read(item, args[i..]) == Read(ReadOpt(item, args[i], args[i + 1]), args[i + 2..])
    ensures TakesValue(args[i]) && i + 1 == |args| ==> Read(item, args[i..]) == item
    ensures !TakesValue(args[i]) ==> Read(item, args[i..]) == Read(ReadWord(item, args[i]), args[i + 1..])
  {
    hide TakesValue;
    var rest := args[i..];
    assert rest[1..] == args[i + 1..];
    if i + 1 < |args| {
      assert rest[2..] == args[i + 2..];
    }
  }

  method CollectionFromCurlImport(content: string) returns (result: Option<Item>)
    ensures result == Import(content)
  {
    var split := SplitCurlImportArgs(content);
    hide SplitArgs;
    if split.None? || split.value == [] || Lower(split.value[0]) != "curl" {
      return None;
    }
    var args := split.value;
    var item := NEW_ITEM;
    var index := 1;
    while index < |args|
      invariant 1 <= index <= |args|
      invariant Read(item, args[index..]) == Read(NEW_ITEM, args[1..])
      decreases |args| - index
    {
      ReadNext(item, args, index);
      hide Read;
      if !TakesValue(args[index]) {
        item := ReadWord(item, args[index]);
        index := index + 1;
      } else if index + 1 < |args| {
        item := ReadOpt(item, args[index], args[index + 1]);
        index := index + 2;
      } else {
        index := index + 1;
        NothingLeft(item, args);
      }
    }
    NothingLeft(item, args);
    if Trim(item.url) == [] {
      return None;
    }
    return Some(item);
  }

  lemma NothingLeft(item: Item, args: seq<string>)
    ensures Read(item, args[|args|..]) == item
  {
  }
}
