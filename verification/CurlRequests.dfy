// What a request becomes when it is written as a curl command and imported, field by field,
// and what any other command line means to the import.

module CurlRequests {
  import opened CurlCommand
  import opened CurlWords
  import opened Text

  // --- a tidy request there and back -------------------------------------------------------------

  /** A header as the editor keeps it. */
  predicate TidyHeader(h: KeyValue) {
    h.enabled && h.name != "" && Trimmed(h.name) && ':' !in h.name && Trimmed(h.value)
  }

  /** A content type is given, in whatever case. */
  predicate Typed(headers: seq<KeyValue>) {
    exists h <- headers :: Lower(h.name) == Lower("content-type")
  }

  /** The content type a raw body mode implies. */
  function ModeType(mode: string): string {
    match mode
    case "json" => "application/json"
    case "graphql" => "application/json"
    case "xml" => "application/xml"
    case "text" => "text/plain"
    case _ => ""
  }

  predicate RawMode(mode: string) {
    mode == "json" || mode == "graphql" || mode == "xml" || mode == "text" || mode == "sparql"
  }

  /** A mode's name starts and ends in a letter. */
  lemma Lettered(mode: string)
    requires mode != [] && 'a' <= mode[0] <= 'z' && 'a' <= mode[|mode| - 1] <= 'z'
    ensures Trimmed(mode)
  {
  }

  lemma PlainMode(mode: string)
    requires Trimmed(mode)
    ensures NormalizedBodyMode(mode) ==
            if mode == "form-url-encoded" || mode == "formUrlEncoded" then "formUrlEncoded"
            else if mode == "multipart-form" || mode == "multipartForm" || mode == "multipart" then "multipartForm"
            else mode
  {
    TrimIsTrimmed(mode);
    hide Trim;
  }

  lemma TidyRow(h: KeyValue)
    requires TidyHeader(h)
    ensures h.enabled && h.name != [] && Trim(h.name) == h.name && KeyValue(Trim(h.name), h.value, true) == h
  {
    TrimIsTrimmed(h.name);
    hide Trim;
  }

  lemma EnabledSnoc(front: seq<KeyValue>, h: KeyValue)
    requires TidyHeader(h)
    ensures EnabledKeyValues(front + [h]) == EnabledKeyValues(front) + [h]
  {
    TidyRow(h);
    hide TidyHeader;
    hide Trim;
    assert (front + [h])[..|front|] == front;
  }

  lemma {:induction false} TidyStays(rows: seq<KeyValue>)
    requires forall h <- rows :: TidyHeader(h)
    ensures EnabledKeyValues(rows) == rows
  {
    hide TidyHeader;
    if rows != [] {
      var n := |rows| - 1;
      assert rows[n] in rows && forall h <- rows[..n] :: h in rows;
      assert rows == rows[..n] + [rows[n]];
      TidyStays(rows[..n]);
      hide EnabledKeyValues;
      EnabledSnoc(rows[..n], rows[n]);
    }
  }

  /** Rows that are disabled or have no name do not count. */
  lemma {:induction false} DisabledDropped(before: seq<KeyValue>, h: KeyValue, behind: seq<KeyValue>)
    requires !h.enabled || Trim(h.name) == []
    ensures EnabledKeyValues(before + [h] + behind) == EnabledKeyValues(before + behind)
    decreases |behind|
  {
    hide Trim;
    if behind == [] {
      assert before + [h] + [] == before + [h] && before + [] == before;
      assert (before + [h])[..|before|] == before;
    } else {
      var n := |behind| - 1;
      DisabledDropped(before, h, behind[..n]);
      assert (before + [h] + behind)[..|before| + 1 + n] == before + [h] + behind[..n];
      assert (before + behind)[..|before| + n] == before + behind[..n];
    }
  }

  lemma TidyTyped(headers: seq<KeyValue>)
    requires forall h <- headers :: TidyHeader(h)
    ensures HasHeaderName(headers, "content-type") <==> Typed(headers)
  {
    hide Lower;
    hide Trim;
    hide TidyHeader;
    if HasHeaderName(headers, "content-type") {
      var h :| h in headers && Lower(Trim(h.name)) == Lower("content-type");
      TidyRow(h);
    }
    if Typed(headers) {
      var h :| h in headers && Lower(h.name) == Lower("content-type");
      TidyRow(h);
    }
  }

  /** The headers that come back: those of the request, and a content type for the body
      where none is given. */
  function HeadersWith(headers: seq<KeyValue>, contentType: string): seq<KeyValue> {
    if contentType != "" && !Typed(headers) then headers + [KeyValue("Content-Type", contentType, true)] else headers
  }

  lemma TidyBack(headers: seq<KeyValue>, contentType: string)
    requires (forall h <- headers :: TidyHeader(h)) && Trimmed(contentType)
    ensures HeadersBack(HeadersWith(headers, contentType)) == HeadersWith(headers, contentType)
  {
    var all := HeadersWith(headers, contentType);
    assert TidyHeader(KeyValue("Content-Type", contentType, true));
    forall i | 0 <= i < |all|
      ensures HeaderBack(all[i]) == all[i]
    {
      assert all[i] in headers || all[i] == KeyValue("Content-Type", contentType, true);
      TrimIsTrimmed(all[i].name);
      hide Trim;
      HeaderComesBack(all[i]);
    }
    hide HeaderBack;
  }

  predicate TidyVerb(verb: string) {
    verb != "" && Trimmed(verb) && Upper(verb) == verb
  }

  predicate Tidy(e: Example) {
    HttpUrl(e.url) && TidyVerb(e.verb) && forall h <- e.headers :: TidyHeader(h)
  }

  lemma TidyMethod(e: Example)
    requires TidyVerb(e.verb)
    ensures Method(e) == e.verb
  {
    TrimIsTrimmed(e.verb);
    hide Trim;
    hide Upper;
  }

  /** A request is sent with its verb trimmed and in upper case, and a blank one as a GET. */
  lemma VerbSent(e: Example)
    ensures Trim(e.verb) == "" ==> Method(e) == "GET"
    ensures Trim(e.verb) != "" ==> Method(e) == Upper(Trim(e.verb))
  {
    TrimIsTrimmed("GET");
    hide Trim;
    assert Upper("GET") == "GET";
  }

  lemma TidyHeaders(e: Example, contentType: string)
    requires Tidy(e) && AutoContentType(e) == contentType && Trimmed(contentType)
    ensures Headers(e) == HeadersWith(e.headers, contentType) && HeadersBack(Headers(e)) == Headers(e)
  {
    hide TidyHeader;
    hide AutoContentType;
    hide HasHeaderName;
    hide Typed;
    hide HeadersBack;
    hide HttpUrl;
    hide TidyVerb;
    TidyStays(e.headers);
    TidyTyped(e.headers);
    TidyBack(e.headers, contentType);
    hide EnabledKeyValues;
  }

  /** A request with a raw body comes back with its verb, URL, headers and body; a body makes
      a GET a POST, and one without a content type gets that of its mode. */
  lemma RawRequestComesBack(e: Example)
    requires Tidy(e) && RawMode(e.bodyMode)
    ensures Import(Command(e)) ==
            Some(Item(if e.body != "" && e.verb == "GET" then "POST" else e.verb, e.url, HeadersWith(e.headers, ModeType(e.bodyMode)),
                      if e.body == "" then "none" else "text", e.body, [], None, false))
  {
    RawOpts(e);
    OneBodyBack(e, ModeType(e.bodyMode), e.body);
    hide RawMode;
    hide Import;
    hide Command;
    hide HeadersWith;
    hide ModeType;
    hide Tidy;
  }

  lemma RawOpts(e: Example)
    requires RawMode(e.bodyMode)
    ensures NormalizedBodyMode(e.bodyMode) != "multipartForm"
    ensures AutoContentType(e) == ModeType(e.bodyMode) && Trimmed(ModeType(e.bodyMode))
    ensures BodyOpts(e) == if e.body == "" then [] else [Opt("--data-raw", e.body)]
  {
    RawModeIs(e.bodyMode);
    RawType(e);
    RawText(e);
    hide NormalizedBodyMode;
    hide AutoContentType;
    hide ModeType;
    hide BodyOpts;
    hide Trimmed;
  }

  lemma RawModeIs(mode: string)
    requires RawMode(mode)
    ensures NormalizedBodyMode(mode) == mode
  {
    Lettered(mode);
    PlainMode(mode);
    hide NormalizedBodyMode;
    hide Trimmed;
  }

  lemma RawType(e: Example)
    requires RawMode(e.bodyMode) && NormalizedBodyMode(e.bodyMode) == e.bodyMode
    ensures AutoContentType(e) == ModeType(e.bodyMode) && Trimmed(ModeType(e.bodyMode))
  {
    hide NormalizedBodyMode;
    assert Trimmed("application/json") && Trimmed("application/xml") && Trimmed("text/plain");
    hide IsSpace;
  }

  lemma RawText(e: Example)
    requires RawMode(e.bodyMode) && NormalizedBodyMode(e.bodyMode) == e.bodyMode
    ensures BodyOpts(e) == if e.body == "" then [] else [Opt("--data-raw", e.body)]
  {
    hide NormalizedBodyMode;
  }

  /** A body of one text, or none. */
  lemma OneBodyBack(e: Example, contentType: string, text: string)
    requires Tidy(e) && NormalizedBodyMode(e.bodyMode) != "multipartForm"
    requires AutoContentType(e) == contentType && Trimmed(contentType)
    requires if text == "" then BodyOpts(e) == [] else exists o :: BodyOpts(e) == [o] && o.value == text
    ensures Import(Command(e)) ==
            Some(Item(if text != "" && e.verb == "GET" then "POST" else e.verb, e.url, HeadersWith(e.headers, contentType),
                      if text == "" then "none" else "text", text, [], None, false))
  {
    TidyMethod(e);
    TidyHeaders(e, contentType);
    ImportedBack(e);
    hide Import;
    hide Command;
    hide Headers;
    hide HeadersBack;
    hide HeadersWith;
    hide Method;
    hide HttpUrl;
    hide Trimmed;
    hide TidyHeader;
    hide BodyOpts;
    hide NormalizedBodyMode;
    hide AutoContentType;
  }

  /** Without a body mode there is no body, whatever the text. */
  lemma BodilessComesBack(e: Example)
    requires Tidy(e) && (e.bodyMode == "none" || e.bodyMode == "")
    ensures Import(Command(e)) == Some(Item(e.verb, e.url, e.headers, "none", "", [], None, false))
  {
    PlainMode(e.bodyMode);
    assert AutoContentType(e) == "" && BodyOpts(e) == [];
    OneBodyBack(e, "", "");
    hide Import;
    hide Command;
    hide Tidy;
    hide NormalizedBodyMode;
  }

  /** An encoded form comes back as the text it was sent as, under its content type. */
  lemma FormComesBack(e: Example)
    requires Tidy(e) && (e.bodyMode == "form-url-encoded" || e.bodyMode == "formUrlEncoded")
    ensures Import(Command(e)) ==
            if e.encodedForm == "" then Some(Item(e.verb, e.url, e.headers, "none", "", [], None, false))
            else Some(Item(if e.verb == "GET" then "POST" else e.verb, e.url,
                           HeadersWith(e.headers, "application/x-www-form-urlencoded"), "text", e.encodedForm, [], None, false))
  {
    var contentType := if e.encodedForm == "" then "" else "application/x-www-form-urlencoded";
    PlainMode(e.bodyMode);
    FormMode(e, contentType);
    OneBodyBack(e, contentType, e.encodedForm);
    hide Import;
    hide Command;
    hide Tidy;
    hide NormalizedBodyMode;
    hide Typed;
  }

  lemma FormMode(e: Example, contentType: string)
    requires NormalizedBodyMode(e.bodyMode) == "formUrlEncoded"
    requires contentType == if e.encodedForm == "" then "" else "application/x-www-form-urlencoded"
    ensures AutoContentType(e) == contentType && Trimmed(contentType)
    ensures BodyOpts(e) == if e.encodedForm == "" then [] else [Opt("--data-raw", e.encodedForm)]
  {
    hide NormalizedBodyMode;
  }

  /** A file comes back as a reference to it, under its content type. */
  lemma FileComesBack(e: Example)
    requires Tidy(e) && e.bodyMode == "file" && (e.file.Some? ==> Trimmed(e.file.value.contentType))
    ensures var contentType := if e.file.Some? then e.file.value.contentType else "";
            Import(Command(e)) ==
            if e.file.Some? && Trim(e.file.value.path) != ""
            then Some(Item(if e.verb == "GET" then "POST" else e.verb, e.url, HeadersWith(e.headers, contentType),
                           "text", "@" + e.file.value.path, [], None, false))
            else Some(Item(e.verb, e.url, HeadersWith(e.headers, contentType), "none", "", [], None, false))
  {
    var contentType := if e.file.Some? then e.file.value.contentType else "";
    PlainMode(e.bodyMode);
    FileMode(e, contentType);
    OneBodyBack(e, contentType, if e.file.Some? && Trim(e.file.value.path) != "" then "@" + e.file.value.path else "");
    hide Import;
    hide Command;
    hide Tidy;
    hide NormalizedBodyMode;
    hide HeadersWith;
    hide Trim;
  }

  lemma FileMode(e: Example, contentType: string)
    requires NormalizedBodyMode(e.bodyMode) == "file" && contentType == if e.file.Some? then e.file.value.contentType else ""
    ensures AutoContentType(e) == contentType
    ensures BodyOpts(e) ==
            if e.file.Some? && Trim(e.file.value.path) != "" then [Opt("--data-binary", "@" + e.file.value.path)] else []
  {
    hide NormalizedBodyMode;
    hide Trim;
  }

  /** A form part by its name and what is sent for it: its text, or a reference to its file,
      with the content type where it has one. */
  function PartSent(p: Part): (string, string) {
    (p.name,
     if p.filePath == "" then p.value
     else "@" + p.filePath + if p.contentType == "" then "" else ";type=" + p.contentType)
  }

  predicate TidyPart(p: Part) {
    p.name != "" && Trimmed(p.name) && '=' !in p.name && Trimmed(p.filePath) && Trimmed(p.contentType)
  }

  function PartsSent(parts: seq<Part>): seq<(string, string)> {
    if parts == [] then []
    else
      var n := |parts| - 1;
      PartsSent(parts[..n]) + if parts[n].enabled then [PartSent(parts[n])] else []
  }

  lemma TidyPartBack(p: Part)
    requires TidyPart(p)
    ensures Trim(p.name) == p.name && PartBack(p) == PartSent(p)
  {
    TrimIsTrimmed(p.name);
    TrimIsTrimmed(p.filePath);
    TrimIsTrimmed(p.contentType);
    hide Trim;
    var text := FormPart(p);
    assert text == p.name + ['='] + PartSent(p).1;
    FindAppend(p.name, '=', PartSent(p).1);
    hide Find;
    hide FormPart;
    assert text[..|p.name|] == p.name && text[|p.name| + 1..] == PartSent(p).1;
  }

  lemma {:induction false} TidyPartsBack(parts: seq<Part>)
    requires forall p <- parts :: TidyPart(p)
    ensures PartsBack(parts) == PartsSent(parts)
  {
    if parts != [] {
      var n := |parts| - 1;
      assert parts[n] in parts && forall p <- parts[..n] :: p in parts;
      TidyPartsBack(parts[..n]);
      TidyPartBack(parts[n]);
      hide PartBack;
      hide PartSent;
      hide Trim;
    }
  }

  /** A multipart form comes back with every enabled part, in order. */
  lemma MultipartComesBack(e: Example)
    requires Tidy(e) && (e.bodyMode == "multipart-form" || e.bodyMode == "multipartForm" || e.bodyMode == "multipart")
    requires forall p <- e.parts :: TidyPart(p)
    ensures var form := PartsSent(e.parts);
            Import(Command(e)) ==
            Some(Item(if form != [] && e.verb == "GET" then "POST" else e.verb, e.url, e.headers,
                      if form == [] then "none" else "multipartForm", "", form, None, false))
  {
    MultipartOpts(e);
    hide NormalizedBodyMode;
    hide AutoContentType;
    hide BodyOpts;
    hide Import;
    hide Command;
    hide Headers;
    hide HeadersBack;
    hide Method;
    hide HttpUrl;
    hide PartsBack;
    hide PartsSent;
    hide TidyPart;
    hide TidyHeader;
    hide Typed;
    hide Trimmed;
    ImportedBack(e);
    TidyMethod(e);
    TidyHeaders(e, "");
    TidyPartsBack(e.parts);
    MultipartMode(e);
  }

  lemma MultipartOpts(e: Example)
    requires e.bodyMode == "multipart-form" || e.bodyMode == "multipartForm" || e.bodyMode == "multipart"
    ensures NormalizedBodyMode(e.bodyMode) == "multipartForm" && AutoContentType(e) == "" && BodyOpts(e) == FormOpts(e.parts)
  {
    Lettered(e.bodyMode);
    PlainMode(e.bodyMode);
    hide NormalizedBodyMode;
    hide Trimmed;
  }

  lemma MultipartMode(e: Example)
    requires HttpUrl(e.url) && BodyOpts(e) == FormOpts(e.parts)
    ensures (BodyOpts(e) == [] <==> PartsBack(e.parts) == [])
    ensures BodyOpts(e) != [] ==> Import(Command(e)).Some? && Import(Command(e)).value.mode == "multipartForm"
  {
    ImportedBack(e);
    ImportOf(e);
    HeadersAsRead(Started(e), Headers(e));
    var item := ReadOpts(Started(e), HeaderOpts(Headers(e)));
    FormAsRead(item, e.parts);
    hide Import;
    hide Command;
    hide Headers;
    hide HeaderOpts;
    hide ReadOpts;
    hide BodyOpts;
    hide FormOpts;
    hide PartsBack;
    hide Trim;
  }

  // --- any command line --------------------------------------------------------------------------

  /** A quoted command line is imported from its words, unless they leave no URL. */
  lemma QuotedCommand(words: seq<string>)
    requires "" !in words
    ensures var item := Read(NEW_ITEM, words);
            Import(Join(QuotedWords(["curl"] + words), " ")) == if Trim(item.url) == [] then None else Some(item)
  {
    var args := ["curl"] + words;
    QuotedWordsComeBack(args);
    NoneLost(args);
    hide Import;
    hide SplitArgs;
    hide QuotedWords;
    hide CurlWords.NonEmpty;
    hide Trim;
    ImportOfWords(Join(QuotedWords(args), " "), args);
    assert args[1..] == words;
  }

  lemma CutIs(name: string, sep: char, text: string)
    requires sep !in name
    ensures Cut(name + [sep] + text, sep) == (name, text) && sep in name + [sep] + text
  {
    FindAppend(name, sep, text);
    var s := name + [sep] + text;
    assert s[|name|] == sep;
    hide Find;
    assert s[..|name|] == name && s[|name| + 1..] == text;
  }

  /** A method is taken in upper case; a header is cut at its first colon and trimmed, and
      one without a colon ignored. */
  lemma RequestAndHeader(item: Item, flag: string, value: string, name: string, text: string, rest: seq<string>)
    requires ':' !in name
    ensures flag == "-X" || flag == "--request" ==> Read(item, [flag, value] + rest) == Read(item.(verb := Upper(value)), rest)
    ensures flag == "-H" || flag == "--header" ==>
              Read(item, [flag, name + [':'] + text] + rest)
              == Read(item.(headers := item.headers + [KeyValue(Trim(name), Trim(text), true)]), rest)
    ensures flag == "-H" || flag == "--header" ==> Read(item, [flag, name] + rest) == Read(item, rest)
  {
    CutIs(name, ':', text);
    hide Read;
    hide Cut;
    if flag == "-X" || flag == "--request" {
      ReadPair(item, flag, value, rest);
    }
    if flag == "-H" || flag == "--header" {
      ReadPair(item, flag, name + [':'] + text, rest);
      ReadPair(item, flag, name, rest);
    }
  }

  /** A text body replaces whatever body there was; a form part joins the form; either turns
      a GET into a POST. */
  lemma BodySwitches(item: Item, flag: string, value: string, name: string, text: string, rest: seq<string>)
    requires '=' !in name
    ensures var posted := if item.verb == "GET" then "POST" else item.verb;
            && (flag == "-d" || flag == "--data" || flag == "--data-raw" || flag == "--data-binary" || flag == "--data-ascii" ==>
                  Read(item, [flag, value] + rest) == Read(item.(mode := "text", text := value, form := [], verb := posted), rest))
            && (flag == "-F" || flag == "--form" ==>
                  Read(item, [flag, name + ['='] + text] + rest)
                  == Read(item.(mode := "multipartForm", form := item.form + [(Trim(name), text)], verb := posted), rest))
  {
    CutIs(name, '=', text);
    hide Read;
    hide Cut;
    if TakesValue(flag) {
      ReadPair(item, flag, value, rest);
      ReadPair(item, flag, name + ['='] + text, rest);
    }
  }

  /** A user is cut from a password at the first colon; the last URL counts. */
  lemma UserAndUrl(item: Item, flag: string, value: string, name: string, text: string, rest: seq<string>)
    requires ':' !in name
    ensures flag == "-u" || flag == "--user" ==>
              && Read(item, [flag, name + [':'] + text] + rest) == Read(item.(user := Some((name, text))), rest)
              && Read(item, [flag, name] + rest) == Read(item.(user := Some((name, ""))), rest)
    ensures flag == "--url" ==> Read(item, [flag, value] + rest) == Read(item.(url := value), rest)
  {
    CutIs(name, ':', text);
    hide Read;
    if TakesValue(flag) {
      ReadPair(item, flag, value, rest);
      ReadPair(item, flag, name, rest);
      ReadPair(item, flag, name + [':'] + text, rest);
    }
  }

  const SWITCHES := ["-X", "--request", "-H", "--header", "-d", "--data", "--data-raw", "--data-binary", "--data-ascii",
                     "-F", "--form", "-u", "--user", "--url"]

  /** Of the other words an http URL is taken, a dash is warned about, and the rest ignored;
      a switch at the very end, without its value, is ignored too. */
  lemma OtherWords(item: Item, word: string, rest: seq<string>)
    ensures word !in SWITCHES ==>
              Read(item, [word] + rest) ==
              Read(if "http://" <= word || "https://" <= word then item.(url := word)
                   else if word != "" && word[0] == '-' then item.(warned := true) else item, rest)
    ensures word in SWITCHES ==> Read(item, [word]) == item
  {
    SwitchesTake(word);
    hide TakesValue;
    if word !in SWITCHES {
      ReadOther(item, word, rest);
    }
  }

  lemma SwitchesTake(word: string)
    ensures word in SWITCHES <==> TakesValue(word)
  {
  }

  // --- any quoting -------------------------------------------------------------------------------

  /** Quotes and backslashes with a backslash in front. */
  function Slashed(s: string): string {
    if s == [] then [] else (if s[0] == '"' || s[0] == '\\' then ['\\', s[0]] else [s[0]]) + Slashed(s[1..])
  }

  function InDouble(args: seq<string>, current: string): Scanner {
    Scanner(args, current, Some('"'), false)
  }

  /** Outside single quotes a backslash takes the next character as it is. */
  lemma BackslashTakes(args: seq<string>, current: string, c: char)
    ensures Scan(Bare(args, current), ['\\', c]) == Bare(args, current + [c])
    ensures Scan(InDouble(args, current), ['\\', c]) == InDouble(args, current + [c])
  {
    assert ['\\', c] == ['\\'] + [c];
    ScanAppend(Bare(args, current), ['\\'], [c]);
    ScanAppend(InDouble(args, current), ['\\'], [c]);
    ScanOne(Bare(args, current), '\\');
    ScanOne(InDouble(args, current), '\\');
    ScanOne(Step(Bare(args, current), '\\'), c);
    ScanOne(Step(InDouble(args, current), '\\'), c);
    hide Scan;
  }

  lemma {:induction false} ScanSlashed(args: seq<string>, current: string, s: string)
    ensures Scan(InDouble(args, current), Slashed(s)) == InDouble(args, current + s)
    decreases |s|
  {
    hide Scan;
    if s == [] {
      ScanNothing(InDouble(args, current));
      assert current + s == current;
    } else {
      var first := if s[0] == '"' || s[0] == '\\' then ['\\', s[0]] else [s[0]];
      BackslashTakes(args, current, s[0]);
      ScanOne(InDouble(args, current), s[0]);
      ScanAppend(InDouble(args, current), first, Slashed(s[1..]));
      ScanSlashed(args, current + [s[0]], s[1..]);
      assert current + [s[0]] + s[1..] == current + s;
    }
  }

  lemma ScanNothing(s: Scanner)
    ensures Scan(s, []) == s
  {
  }

  /** A word in double quotes, its quotes and backslashes escaped, adds exactly its text. */
  lemma DoubleQuoted(args: seq<string>, current: string, s: string)
    ensures Scan(Bare(args, current), "\"" + (Slashed(s) + "\"")) == Bare(args, current + s)
  {
    hide Scan;
    ScanOne(Bare(args, current), '"');
    ScanSlashed(args, current, s);
    ScanOne(InDouble(args, current + s), '"');
    ScanAppend(Bare(args, current), "\"", Slashed(s) + "\"");
    ScanAppend(InDouble(args, current), Slashed(s), "\"");
  }

  /** A space, a tab and a line break end a word. */
  lemma WordEnds(args: seq<string>, w: string, c: char, rest: string)
    requires (c == ' ' || c == '\t' || c == '\n') && forall i :: 0 <= i < |w| ==> PlainChar(w[i])
    ensures Scan(Bare(args, []), w + ([c] + rest)) == Scan(Bare(if w == [] then args else args + [w], []), rest)
  {
    ScanPlain(args, [], w);
    assert [] + w == w;
    hide Scan;
    ScanAppend(Bare(args, []), w, [c] + rest);
    ScanAppend(Bare(args, w), [c], rest);
    ScanOne(Bare(args, w), c);
  }

  lemma {:induction false} StaysOpen(s: Scanner, text: string)
    requires s.quote.Some? && !s.escaped && forall c <- text :: c != s.quote.value && c != '\\'
    ensures Scan(s, text).quote == s.quote
    decreases |text|
  {
    if text != [] {
      assert text[0] in text && forall c <- text[1..] :: c in text;
      StaysOpen(Step(s, text[0]), text[1..]);
    }
  }

  /** A line that ends inside quotes, or behind a backslash, is refused. */
  lemma Unfinished(before: string, args: seq<string>, current: string, quote: char, text: string)
    requires Scan(START, before) == Bare(args, current)
    requires (quote == '"' || quote == '\'') && forall c <- text :: c != quote && c != '\\'
    ensures Trimmed(before + ([quote] + text)) ==> SplitArgs(before + ([quote] + text)) == None
    ensures Trimmed(before + "\\") ==> SplitArgs(before + "\\") == None
  {
    TrimIsTrimmed(before + ([quote] + text));
    TrimIsTrimmed(before + "\\");
    ScanAppend(START, before, [quote] + text);
    ScanAppend(START, before, "\\");
    ScanAppend(Bare(args, current), [quote], text);
    ScanOne(Bare(args, current), quote);
    ScanOne(Bare(args, current), '\\');
    StaysOpen(Scanner(args, current, Some(quote), false), text);
    hide Scan;
    hide Trim;
    hide Trimmed;
  }
}
