// The authority of a gRPC target: host, host:port, [ip] or [ip]:port, and nothing else.

module GrpcAuthority {
  import opened Text

  /** What net.ParseIP answers. */
  type Literals = string -> bool

  datatype Authority = Authority(host: string, port: Option<string>)

  datatype Refusal =
    | Empty | PathSeparator | QueryOrFragment | UserInfo | PercentEscape | Whitespace | Control
    | NotClosed | TwoClosings | NotAnIP | NotAPort | PortEmpty | PortTooLong | PortNotANumber | PortOutOfRange
    | ManyColons | HostEmpty | NotAHost

  datatype Outcome = Accepted(authority: Authority) | Refused(reason: Refusal)

  // --- the parts -----------------------------------------------------------------------------------

  predicate IpChar(c: char) {
    IsDigit(c) || 'a' <= c <= 'f' || 'A' <= c <= 'F' || c == ':' || c == '.'
  }

  /** An IP literal: hexadecimal digits, colons and dots that ParseIP takes. */
  predicate IsIP(s: string, literals: Literals) {
    s != [] && literals(s) && forall i :: 0 <= i < |s| ==> IpChar(s[i])
  }

  function ForbiddenChar(c: char): Option<Refusal> {
    if c == '/' || c == '\\' then Some(PathSeparator)
    else if c == '?' || c == '#' then Some(QueryOrFragment)
    else if c == '@' then Some(UserInfo)
    else if c == '%' then Some(PercentEscape)
    else if IsSpace(c) then Some(Whitespace)
    else if c < ' ' || 0x7f as char <= c <= 0x9f as char then Some(Control)
    else None
  }

  function FirstForbidden(s: string): Option<Refusal> {
    if s == [] then None
    else if ForbiddenChar(s[0]).Some? then ForbiddenChar(s[0])
    else FirstForbidden(s[1..])
  }

  function PortRefusal(port: string): Option<Refusal> {
    if port == [] then Some(PortEmpty)
    else if |port| > 5 then Some(PortTooLong)
    else if !AllDigits(port) then Some(PortNotANumber)
    else if Number(port) < 1 || Number(port) > 65535 then Some(PortOutOfRange)
    else None
  }

  predicate LabelChar(c: char) {
    'a' <= c <= 'z' || 'A' <= c <= 'Z' || IsDigit(c) || c == '-'
  }

  predicate ValidLabel(part: string) {
    && 1 <= |part| <= 63 && part[0] != '-' && part[|part| - 1] != '-'
    && forall i :: 0 <= i < |part| ==> LabelChar(part[i])
  }

  /** Dot-separated labels, 253 characters in all. */
  predicate ValidHostname(host: string) {
    host != [] && |host| <= 253 && forall part <- Split(host, '.') :: ValidLabel(part)
  }

  function WithPort(host: string, port: string): Outcome {
    var refusal := PortRefusal(port);
    if refusal.Some? then Refused(refusal.value) else Accepted(Authority(host, Some(port)))
  }

  function ParseBracketed(s: string, literals: Literals): Outcome
    requires s != []
  {
    var closing := Find(s, ']');
    if closing == |s| then Refused(NotClosed)
    else if ']' in s[closing + 1..] then Refused(TwoClosings)
    else if closing == 0 || !IsIP(s[1..closing], literals) then Refused(NotAnIP)
    else
      var rest := s[closing + 1..];
      if rest == [] then Accepted(Authority(s[1..closing], None))
      else if rest[0] != ':' then Refused(NotAPort)
      else WithPort(s[1..closing], rest[1..])
  }

  function CheckHost(a: Authority, literals: Literals): Outcome {
    if a.host == [] then Refused(HostEmpty)
    else if !IsIP(a.host, literals) && !ValidHostname(a.host) then Refused(NotAHost)
    else Accepted(a)
  }

  function ParsePlain(s: string, literals: Literals): Outcome {
    var colon := Find(s, ':');
    if colon == |s| then CheckHost(Authority(s, None), literals)
    else if ':' in s[colon + 1..] then Refused(ManyColons)
    else
      var outcome := WithPort(s[..colon], s[colon + 1..]);
      if outcome.Refused? then outcome else CheckHost(outcome.authority, literals)
  }

  function Parse(s: string, literals: Literals): Outcome {
    if s == [] then Refused(Empty)
    else if FirstForbidden(s).Some? then Refused(FirstForbidden(s).value)
    else if s[0] == '[' then ParseBracketed(s, literals)
    else ParsePlain(s, literals)
  }

  // --- the grammar ---------------------------------------------------------------------------------

  predicate ValidPort(port: string) {
    1 <= |port| <= 5 && AllDigits(port) && 1 <= Number(port) <= 65535
  }

  function PortText(port: Option<string>): string {
    if port.Some? then ":" + port.value else ""
  }

  /** The texts an authority may be written as: plain for hostnames and IP addresses
      without colons, bracketed for any IP address. */
  ghost predicate Spells(s: string, a: Authority, literals: Literals) {
    && (a.port.Some? ==> ValidPort(a.port.value))
    && (|| (s == a.host + PortText(a.port) && ':' !in a.host && (IsIP(a.host, literals) || ValidHostname(a.host)))
        || (s == "[" + a.host + "]" + PortText(a.port) && IsIP(a.host, literals)))
  }

  predicate SafeChar(c: char) {
    LabelChar(c) || IpChar(c) || c == '[' || c == ']'
  }

  predicate SafeText(s: string) {
    forall i :: 0 <= i < |s| ==> SafeChar(s[i])
  }

  lemma {:induction false} SafeIsAllowed(s: string)
    requires SafeText(s)
    ensures FirstForbidden(s).None?
  {
    if s != [] {
      assert SafeChar(s[0]);
      assert forall i :: 0 <= i < |s| - 1 ==> s[1..][i] == s[i + 1];
      SafeIsAllowed(s[1..]);
    }
  }

  lemma {:induction false} PartsOf(s: string, sep: char, i: nat)
    requires i < |s| && s[i] != sep
    ensures exists part <- Split(s, sep) :: s[i] in part
    decreases |s|
  {
    var cut := Find(s, sep);
    if cut == |s| {
      assert s[i] in s && s in Split(s, sep);
    } else if i < cut {
      assert s[..cut][i] == s[i];
      assert s[..cut] in Split(s, sep);
    } else {
      var rest := s[cut + 1..];
      assert rest[i - cut - 1] == s[i];
      PartsOf(rest, sep, i - cut - 1);
      var part :| part in Split(rest, sep) && s[i] in part;
      assert part in Split(s, sep);
    }
  }

  lemma HostnameIsSafe(host: string)
    requires ValidHostname(host)
    ensures forall i :: 0 <= i < |host| ==> LabelChar(host[i]) || host[i] == '.'
  {
    forall i | 0 <= i < |host| && host[i] != '.'
      ensures LabelChar(host[i])
    {
      PartsOf(host, '.', i);
      var part :| part in Split(host, '.') && host[i] in part;
      assert ValidLabel(part);
    }
  }

  lemma SafeAppend(a: string, b: string)
    requires SafeText(a) && SafeText(b)
    ensures SafeText(a + b)
  {
  }

  lemma PortIsSafe(port: Option<string>)
    requires port.Some? ==> ValidPort(port.value)
    ensures SafeText(PortText(port)) && ']' !in PortText(port)
    ensures PortText(port) != [] <==> port.Some?
    ensures port.Some? ==> PortText(port)[0] == ':' && PortText(port)[1..] == port.value && ':' !in port.value
  {
    if port.Some? {
      assert forall c <- port.value :: IsDigit(c);
      SafeAppend(":", port.value);
    }
  }

  lemma SpelledIsSafe(s: string, a: Authority, literals: Literals)
    requires Spells(s, a, literals)
    ensures SafeText(s) && a.host != [] && '[' !in a.host && ']' !in a.host
  {
    PortIsSafe(a.port);
    if ValidHostname(a.host) {
      HostnameIsSafe(a.host);
    }
    assert SafeText(a.host);
    hide ValidHostname;
    hide PortText;
    SafeAppend(a.host, PortText(a.port));
    SafeAppend("[", a.host);
    SafeAppend("[" + a.host, "]");
    SafeAppend("[" + a.host + "]", PortText(a.port));
  }

  lemma PortRefusalIs(port: string)
    ensures PortRefusal(port).None? <==> ValidPort(port)
  {
  }

  lemma PlainSpelling(s: string, a: Authority, literals: Literals)
    requires s == a.host + PortText(a.port) && ':' !in a.host && (IsIP(a.host, literals) || ValidHostname(a.host))
    requires a.port.Some? ==> ValidPort(a.port.value)
    ensures ParsePlain(s, literals) == Accepted(a)
  {
    PortIsSafe(a.port);
    assert a.host != [];
    hide ValidHostname;
    hide IsIP;
    if a.port.None? {
      assert s == a.host;
    } else {
      var p := a.port.value;
      assert s == a.host + [':'] + p;
      FindAppend(a.host, ':', p);
      assert s[..|a.host|] == a.host && s[|a.host| + 1..] == p;
      PortRefusalIs(p);
      hide PortRefusal;
      hide Find;
    }
  }

  lemma BracketSpelling(s: string, a: Authority, literals: Literals)
    requires s == "[" + a.host + "]" + PortText(a.port) && IsIP(a.host, literals)
    requires a.port.Some? ==> ValidPort(a.port.value)
    ensures ParseBracketed(s, literals) == Accepted(a)
  {
    PortIsSafe(a.port);
    var rest := PortText(a.port);
    assert ']' !in "[" + a.host by {
      forall i | 0 <= i < |a.host| ensures a.host[i] != ']' { assert IpChar(a.host[i]); }
    }
    assert s == ("[" + a.host) + [']'] + rest;
    FindAppend("[" + a.host, ']', rest);
    var closing := |a.host| + 1;
    assert s[1..closing] == a.host && s[closing + 1..] == rest;
    if a.port.Some? {
      PortRefusalIs(a.port.value);
    }
    hide PortRefusal;
    hide PortText;
    hide IsIP;
    hide Find;
  }

  lemma SpelledParses(s: string, a: Authority, literals: Literals)
    requires Spells(s, a, literals)
    ensures Parse(s, literals) == Accepted(a)
  {
    SpelledIsSafe(s, a, literals);
    SafeIsAllowed(s);
    if s == a.host + PortText(a.port) && ':' !in a.host && (IsIP(a.host, literals) || ValidHostname(a.host)) {
      PlainSpelling(s, a, literals);
      assert s[0] == a.host[0] && a.host[0] in a.host;
    } else {
      BracketSpelling(s, a, literals);
    }
    hide ParsePlain;
    hide ParseBracketed;
    hide FirstForbidden;
    hide IsIP;
    hide ValidHostname;
  }

  lemma PlainIsSpelled(s: string, literals: Literals)
    requires ParsePlain(s, literals).Accepted?
    ensures Spells(s, ParsePlain(s, literals).authority, literals)
  {
    hide IsIP;
    hide ValidHostname;
    var colon := Find(s, ':');
    if colon == |s| {
      assert s + "" == s;
    } else {
      PortRefusalIs(s[colon + 1..]);
      hide PortRefusal;
      assert s == s[..colon] + (":" + s[colon + 1..]);
    }
    hide Find;
  }

  lemma BracketedIsSpelled(s: string, literals: Literals)
    requires s != [] && s[0] == '[' && ParseBracketed(s, literals).Accepted?
    ensures Spells(s, ParseBracketed(s, literals).authority, literals)
  {
    hide IsIP;
    var closing := Find(s, ']');
    var ip, rest := s[1..closing], s[closing + 1..];
    assert s == "[" + ip + "]" + rest;
    if rest != [] {
      PortRefusalIs(rest[1..]);
      hide PortRefusal;
      assert rest == ":" + rest[1..];
    }
    hide Find;
  }

  /** The parser accepts exactly the grammar, and reads each text one way. */
  lemma ParseIsGrammar(s: string, a: Authority, literals: Literals)
    ensures Parse(s, literals) == Accepted(a) <==> Spells(s, a, literals)
  {
    if Spells(s, a, literals) {
      SpelledParses(s, a, literals);
    } else if Parse(s, literals) == Accepted(a) {
      if s[0] == '[' {
        BracketedIsSpelled(s, literals);
      } else {
        PlainIsSpelled(s, literals);
      }
    }
  }

  // --- hostnames -----------------------------------------------------------------------------------

  lemma JoinCons(first: string, rest: seq<string>, sep: string)
    requires rest != []
    ensures Join([first] + rest, sep) == first + sep + Join(rest, sep)
  {
    assert ([first] + rest)[1..] == rest;
  }

  lemma JoinOne(s: string, sep: string)
    ensures Join([s], sep) == s
  {
  }

  lemma CutAt(s: string, i: nat)
    requires i < |s|
    ensures s[..i] + [s[i]] + s[i + 1..] == s
  {
  }

  lemma {:induction false} JoinOfSplit(s: string, sep: char)
    ensures Join(Split(s, sep), [sep]) == s
    decreases |s|
  {
    hide Join;
    hide Find;
    var i := Find(s, sep);
    if i == |s| {
      SplitOne(s, sep);
      JoinOne(s, [sep]);
    } else {
      var rest := s[i + 1..];
      assert Split(s, sep) == [s[..i]] + Split(rest, sep);
      hide Split;
      JoinOfSplit(rest, sep);
      JoinCons(s[..i], Split(rest, sep), [sep]);
      CutAt(s, i);
    }
  }

  lemma {:induction false} SplitOfJoin(parts: seq<string>, sep: char)
    requires parts != [] && forall p <- parts :: sep !in p
    ensures Split(Join(parts, [sep]), sep) == parts
  {
    if |parts| == 1 {
      SplitOne(parts[0], sep);
    } else {
      SplitOfJoin(parts[1..], sep);
      SplitCons(parts[0], sep, Join(parts[1..], [sep]));
      assert parts == [parts[0]] + parts[1..];
    }
  }

  predicate LetterOrDigit(c: char) {
    'a' <= c <= 'z' || 'A' <= c <= 'Z' || '0' <= c <= '9'
  }

  /** A label has 1 to 63 letters, digits and hyphens, with no hyphen at either end; an IP
      address has hexadecimal digits, colons and dots, and is one by the library's answer. */
  lemma LabelExactly(s: string, literals: Literals)
    ensures ValidLabel(s) <==>
            && 1 <= |s| <= 63 && LetterOrDigit(s[0]) && LetterOrDigit(s[|s| - 1])
            && forall i :: 0 <= i < |s| ==> LetterOrDigit(s[i]) || s[i] == '-'
    ensures IsIP(s, literals) <==>
            && s != [] && literals(s)
            && forall i :: 0 <= i < |s| ==>
                 s[i] == ':' || s[i] == '.' || '0' <= s[i] <= '9' || 'a' <= s[i] <= 'f' || 'A' <= s[i] <= 'F'
  {
    if ValidLabel(s) {
      assert LabelChar(s[0]) && LabelChar(s[|s| - 1]);
    }
  }

  /** Exactly the texts of at most 253 characters that are labels joined by dots. */
  lemma HostnameIsLabels(host: string)
    ensures ValidHostname(host) <==>
            |host| <= 253 && exists parts: seq<string> :: parts != [] && host == Join(parts, ".") && forall p <- parts :: ValidLabel(p)
  {
    if ValidHostname(host) {
      JoinOfSplit(host, '.');
      var parts := Split(host, '.');
      assert parts != [] && host == Join(parts, ".") && forall p <- parts :: ValidLabel(p);
    }
    if parts: seq<string> :| parts != [] && host == Join(parts, ".") && forall p <- parts :: ValidLabel(p) {
      forall p <- parts
        ensures '.' !in p
      {
        assert ValidLabel(p);
      }
      SplitOfJoin(parts, '.');
      assert ValidLabel(parts[0]);
      if |parts| == 1 {
        assert host == parts[0];
      } else {
        assert host == parts[0] + "." + Join(parts[1..], ".");
      }
    }
  }

  /** A trailing dot is refused. */
  lemma NoTrailingDot(host: string)
    requires ValidHostname(host)
    ensures host[|host| - 1] != '.'
  {
    LastLabel(host);
  }

  lemma {:induction false} LastLabel(s: string)
    requires s != [] && (forall p <- Split(s, '.') :: ValidLabel(p))
    ensures s[|s| - 1] != '.'
    decreases |s|
  {
    var i := Find(s, '.');
    if i == |s| {
      assert s[|s| - 1] != '.';
    } else {
      var rest := s[i + 1..];
      assert forall p <- Split(rest, '.') :: p in Split(s, '.');
      assert rest == [] ==> Split(rest, '.') == [rest];
      assert rest == [] ==> rest in Split(rest, '.');
      assert !ValidLabel("");
      LastLabel(rest);
    }
  }

  // --- the explicit pin ----------------------------------------------------------------------------

  function EffectivePort(a: Authority): nat
    requires a.port.Some? ==> ValidPort(a.port.value)
  {
    if a.port.Some? then Number(a.port.value) else 443
  }

  /** net.JoinHostPort. */
  function JoinHostPort(host: string, port: string): string {
    if ':' in host || '%' in host then "[" + host + "]:" + port else host + ":" + port
  }

  function Pin(a: Authority): string
    requires a.port.Some? ==> ValidPort(a.port.value)
  {
    JoinHostPort(a.host, Digits(EffectivePort(a)))
  }

  lemma {:induction false} DigitsLength(n: nat)
    ensures n < 10 ==> |Digits(n)| == 1
    ensures n < 100 ==> |Digits(n)| <= 2
    ensures n < 1000 ==> |Digits(n)| <= 3
    ensures n < 10000 ==> |Digits(n)| <= 4
    ensures n < 100000 ==> |Digits(n)| <= 5
  {
    if n >= 10 {
      DigitsLength(n / 10);
    }
  }

  lemma DigitsAreValid(n: nat)
    requires 1 <= n <= 65535
    ensures ValidPort(Digits(n)) && Number(Digits(n)) == n
  {
    NumberOfDigits(n);
    DigitsLength(n);
  }

  /** Pinning an accepted target writes out host and port so that they read back as they
      were: the same host, the effective port, and the same pin again. */
  lemma PinIsFixed(s: string, literals: Literals)
    requires Parse(s, literals).Accepted?
    ensures var a := Parse(s, literals).authority;
            && (a.port.Some? ==> ValidPort(a.port.value))
            && Parse(Pin(a), literals) == Accepted(Authority(a.host, Some(Digits(EffectivePort(a)))))
            && ValidPort(Digits(EffectivePort(a)))
            && EffectivePort(Authority(a.host, Some(Digits(EffectivePort(a))))) == EffectivePort(a)
            && Pin(Authority(a.host, Some(Digits(EffectivePort(a))))) == Pin(a)
  {
    var a := Parse(s, literals).authority;
    ParseIsGrammar(s, a, literals);
    SpelledIsSafe(s, a, literals);
    DigitsAreValid(EffectivePort(a));
    var b := Authority(a.host, Some(Digits(EffectivePort(a))));
    NoPercent(a, s, literals);
    hide Parse;
    hide ValidHostname;
    hide IsIP;
    hide ValidPort;
    hide Digits;
    assert b.host == a.host && EffectivePort(b) == EffectivePort(a);
    PinSpells(a, b, literals);
    hide Spells;
    ParseIsGrammar(Pin(a), b, literals);
  }

  lemma PinSpells(a: Authority, b: Authority, literals: Literals)
    requires (a.port.Some? ==> ValidPort(a.port.value)) && '%' !in a.host
    requires b == Authority(a.host, Some(Digits(EffectivePort(a)))) && ValidPort(b.port.value)
    requires IsIP(a.host, literals) || (ValidHostname(a.host) && ':' !in a.host)
    ensures Spells(Pin(a), b, literals)
  {
    hide ValidHostname;
    hide IsIP;
    hide ValidPort;
    hide Digits;
    assert "[" + a.host + "]:" + b.port.value == "[" + a.host + "]" + PortText(b.port);
  }

  lemma NoPercent(a: Authority, s: string, literals: Literals)
    requires Spells(s, a, literals)
    ensures '%' !in a.host && (':' in a.host ==> IsIP(a.host, literals))
  {
    if ValidHostname(a.host) {
      HostnameIsSafe(a.host);
    }
  }

  // --- the whole target ----------------------------------------------------------------------------

  /** The target after its scheme, and whether the scheme asks for TLS. */
  function Scheme(target: string): (string, bool) {
    if |target| >= 7 && Lower(target[..7]) == "grpc://" then (target[7..], false)
    else if |target| >= 8 && Lower(target[..8]) == "grpcs://" then (target[8..], true)
    else (target, false)
  }

  function Validate(raw: string, literals: Literals): Option<(string, bool)> {
    var (authority, tls) := Scheme(Trim(raw));
    var outcome := Parse(authority, literals);
    if outcome.Refused? then None
    else
      PinIsFixed(authority, literals);
      Some(("dns:///" + Pin(outcome.authority), tls))
  }

  /** Whatever is written with a slash beyond grpc:// or grpcs:// is refused, and so is a
      single colon followed by anything but a port: every other scheme falls to one of the two. */
  lemma OtherSchemesRefused(raw: string, literals: Literals)
    requires var s := Scheme(Trim(raw)).0;
             '/' in s || (s != [] && s[0] != '[' && ':' in s && !ValidPort(s[Find(s, ':') + 1..]))
    ensures Validate(raw, literals).None?
  {
    hide Parse;
    hide Trim;
    hide ValidPort;
    OddRefused(Scheme(Trim(raw)).0, literals);
  }

  lemma AcceptedHasNoSlash(s: string, literals: Literals)
    requires Parse(s, literals).Accepted?
    ensures '/' !in s
  {
    var a := Parse(s, literals).authority;
    ParseIsGrammar(s, a, literals);
    SpelledIsSafe(s, a, literals);
    hide Parse;
    hide Spells;
    forall i | 0 <= i < |s|
      ensures s[i] != '/'
    {
      assert SafeChar(s[i]);
    }
  }

  lemma OddRefused(s: string, literals: Literals)
    requires '/' in s || (s != [] && s[0] != '[' && ':' in s && !ValidPort(s[Find(s, ':') + 1..]))
    ensures Parse(s, literals).Refused?
  {
    hide ValidPort;
    hide Find;
    if Parse(s, literals).Accepted? {
      ParseIsGrammar(s, Parse(s, literals).authority, literals);
      if '/' in s {
        AcceptedHasNoSlash(s, literals);
      } else {
        ColonIsPort(s, Parse(s, literals).authority, literals);
      }
    }
  }

  lemma ColonIsPort(s: string, a: Authority, literals: Literals)
    requires Spells(s, a, literals) && s != [] && s[0] != '[' && ':' in s
    ensures ValidPort(s[Find(s, ':') + 1..])
  {
    PortIsSafe(a.port);
    var p := a.port.value;
    assert s == a.host + [':'] + p;
    FindAppend(a.host, ':', p);
    assert s[|a.host| + 1..] == p;
  }

  /** A spelled authority is pinned with its own port or 443, whatever the scheme in front
      of it; only grpcs:// asks for TLS. */
  lemma ValidatedExactly(s: string, a: Authority, literals: Literals)
    requires Spells(s, a, literals) && Trimmed(s)
    ensures var pin := "dns:///" + (if ':' in a.host then "[" + a.host + "]" else a.host) + ":"
                       + (if a.port.Some? then Digits(Number(a.port.value)) else Digits(443));
            && Validate(s, literals) == Some((pin, false))
            && Validate("grpc://" + s, literals) == Some((pin, false))
            && Validate("grpcs://" + s, literals) == Some((pin, true))
  {
    ParseIsGrammar(s, a, literals);
    SpelledIsSafe(s, a, literals);
    NoPercent(a, s, literals);
    PinText(a);
    Schemes(s);
    hide Spells;
    hide Parse;
    hide Pin;
    hide Scheme;
    hide Trim;
  }

  lemma PinText(a: Authority)
    requires (a.port.Some? ==> ValidPort(a.port.value)) && '%' !in a.host
    ensures "dns:///" + Pin(a) ==
            "dns:///" + (if ':' in a.host then "[" + a.host + "]" else a.host) + ":"
            + (if a.port.Some? then Digits(Number(a.port.value)) else Digits(443))
  {
    hide Digits;
    hide ValidPort;
    var port := Digits(EffectivePort(a));
    assert "[" + a.host + "]:" + port == "[" + a.host + "]" + ":" + port;
  }

  lemma Schemes(s: string)
    requires SafeText(s) && Trimmed(s) && s != []
    ensures Scheme(Trim(s)) == (s, false)
    ensures Scheme(Trim("grpc://" + s)) == (s, false) && Scheme(Trim("grpcs://" + s)) == (s, true)
  {
    TrimIsTrimmed(s);
    NoScheme(s);
    TrimIsTrimmed("grpc://" + s);
    TrimIsTrimmed("grpcs://" + s);
    hide SafeText;
    hide Trim;
    hide IsSpace;
    PlainScheme(s);
    TlsScheme(s);
    hide Scheme;
  }

  lemma PlainScheme(s: string)
    ensures Scheme("grpc://" + s) == (s, false)
  {
    assert Lower("grpc://") == "grpc://";
    assert ("grpc://" + s)[..7] == "grpc://" && ("grpc://" + s)[7..] == s;
  }

  lemma TlsScheme(s: string)
    ensures Scheme("grpcs://" + s) == (s, true)
  {
    assert Lower("grpcs://") == "grpcs://";
    assert ("grpcs://" + s)[..8] == "grpcs://" && ("grpcs://" + s)[8..] == s;
    assert Lower(("grpcs://" + s)[..7])[4] == 's';
  }

  lemma SafeLower(s: string)
    requires SafeText(s)
    ensures forall i :: 0 <= i < |s| ==> Lower(s)[i] != '/'
  {
  }

  lemma NoScheme(s: string)
    requires SafeText(s)
    ensures Scheme(s) == (s, false)
  {
    if |s| >= 7 {
      SafeLower(s[..7]);
      assert Lower(s[..7])[5] != "grpc://"[5];
    }
    if |s| >= 8 {
      SafeLower(s[..8]);
      assert Lower(s[..8])[6] != "grpcs://"[6];
    }
    hide Lower;
  }

  // --- refusals ------------------------------------------------------------------------------------

  /** What a character on its own refuses a text for. */
  ghost predicate Offends(c: char, reason: Refusal) {
    match reason
    case PathSeparator => c in "/\\"
    case QueryOrFragment => c in "?#"
    case UserInfo => c == '@'
    case PercentEscape => c == '%'
    case Whitespace => IsSpace(c)
    case Control => !IsSpace(c) && (c < ' ' || 0x7f as char <= c <= 0x9f as char)
    case _ => false
  }

  ghost predicate Offensive(c: char) {
    exists reason :: Offends(c, reason)
  }

  ghost predicate BadPort(port: string, reason: Refusal) {
    match reason
    case PortEmpty => port == []
    case PortTooLong => |port| > 5
    case PortNotANumber => 1 <= |port| <= 5 && exists i :: 0 <= i < |port| && !IsDigit(port[i])
    case PortOutOfRange => 1 <= |port| <= 5 && AllDigits(port) && !(1 <= Number(port) <= 65535)
    case _ => false
  }

  /** Why a text without offending characters is no authority, by its first character and
      its brackets and colons. */
  ghost predicate Misspelled(s: string, reason: Refusal, literals: Literals)
    requires s != []
  {
    if s[0] == '[' then
      match reason
      case NotClosed => ']' !in s
      case TwoClosings => exists ip: string, rest: string :: s == "[" + ip + "]" + rest && ']' !in ip && ']' in rest
      case NotAnIP =>
        exists ip: string, rest: string :: s == "[" + ip + "]" + rest && ']' !in ip + rest && !IsIP(ip, literals)
      case NotAPort =>
        exists ip: string, rest: string ::
          s == "[" + ip + "]" + rest && ']' !in ip + rest && IsIP(ip, literals) && rest != [] && rest[0] != ':'
      case _ =>
        exists ip: string, port: string ::
          s == "[" + ip + "]" + (":" + port) && ']' !in ip + port && IsIP(ip, literals) && BadPort(port, reason)
    else
      match reason
      case ManyColons => exists a: string, b: string :: s == a + ":" + b && ':' !in a && ':' in b
      case HostEmpty => exists port: string :: s == ":" + port && ValidPort(port)
      case NotAHost =>
        exists a: Authority ::
          && s == a.host + PortText(a.port) && ':' !in a.host && a.host != [] && (a.port.Some? ==> ValidPort(a.port.value))
          && !IsIP(a.host, literals) && !ValidHostname(a.host)
      case _ => exists host: string, port: string :: s == host + ":" + port && ':' !in host + port && BadPort(port, reason)
  }

  lemma OffendsOnce(c: char, reason: Refusal)
    ensures Offends(c, reason) <==> ForbiddenChar(c) == Some(reason)
  {
  }

  lemma {:induction false} FirstOffender(s: string, i: nat, reason: Refusal)
    requires i < |s| && Offends(s[i], reason) && forall j :: 0 <= j < i ==> !Offensive(s[j])
    ensures FirstForbidden(s) == Some(reason)
  {
    OffendsOnce(s[i], reason);
    if i > 0 {
      if ForbiddenChar(s[0]).Some? {
        OffendsOnce(s[0], ForbiddenChar(s[0]).value);
        assert Offensive(s[0]);
      }
      FirstOffender(s[1..], i - 1, reason);
    }
  }

  lemma {:induction false} NoOffender(s: string)
    requires forall i :: 0 <= i < |s| ==> !Offensive(s[i])
    ensures FirstForbidden(s).None?
  {
    if s != [] {
      if ForbiddenChar(s[0]).Some? {
        OffendsOnce(s[0], ForbiddenChar(s[0]).value);
        assert Offensive(s[0]);
      }
      NoOffender(s[1..]);
    }
  }

  lemma BadPortIs(port: string, reason: Refusal)
    ensures BadPort(port, reason) <==> PortRefusal(port) == Some(reason)
  {
  }

  lemma BracketCut(ip: string, rest: string)
    requires ']' !in ip
    ensures var s := "[" + ip + "]" + rest;
            Find(s, ']') == |ip| + 1 && s[1..|ip| + 1] == ip && s[|ip| + 2..] == rest && s != [] && s[0] == '['
  {
    var s := "[" + ip + "]" + rest;
    assert s == ("[" + ip) + [']'] + rest;
    FindAppend("[" + ip, ']', rest);
    hide Find;
  }

  lemma ColonCut(host: string, rest: string)
    requires ':' !in host
    ensures var s := host + ":" + rest; Find(s, ':') == |host| && s[..|host|] == host && s[|host| + 1..] == rest
  {
    assert host + ":" + rest == host + [':'] + rest;
    FindAppend(host, ':', rest);
    hide Find;
  }

  lemma BracketedRefusal(s: string, reason: Refusal, literals: Literals)
    requires s != [] && s[0] == '[' && Misspelled(s, reason, literals)
    ensures ParseBracketed(s, literals) == Refused(reason)
  {
    hide IsIP;
    hide ParseBracketed;
    hide BadPort;
    if reason.NotClosed? {
      NeverClosed(s, literals);
    } else if reason.TwoClosings? {
      var ip: string, rest: string :| s == "[" + ip + "]" + rest && ']' !in ip && ']' in rest;
      Bracketed(ip, rest, literals);
    } else if reason.NotAnIP? {
      var ip: string, rest: string :| s == "[" + ip + "]" + rest && ']' !in ip + rest && !IsIP(ip, literals);
      Bracketed(ip, rest, literals);
    } else if reason.NotAPort? {
      var ip: string, rest: string :|
        s == "[" + ip + "]" + rest && ']' !in ip + rest && IsIP(ip, literals) && rest != [] && rest[0] != ':';
      Bracketed(ip, rest, literals);
    } else {
      var ip: string, port: string :|
        s == "[" + ip + "]" + (":" + port) && ']' !in ip + port && IsIP(ip, literals) && BadPort(port, reason);
      BracketPort(ip, port, reason, literals);
    }
  }

  lemma NeverClosed(s: string, literals: Literals)
    requires s != [] && ']' !in s
    ensures ParseBracketed(s, literals) == Refused(NotClosed)
  {
  }

  lemma Bracketed(ip: string, rest: string, literals: Literals)
    requires ']' !in ip
    ensures ParseBracketed("[" + ip + "]" + rest, literals) ==
            if ']' in rest then Refused(TwoClosings)
            else if !IsIP(ip, literals) then Refused(NotAnIP)
            else if rest == [] then Accepted(Authority(ip, None))
            else if rest[0] != ':' then Refused(NotAPort)
            else WithPort(ip, rest[1..])
  {
    hide IsIP;
    hide WithPort;
    BracketCut(ip, rest);
  }

  lemma BracketPort(ip: string, port: string, reason: Refusal, literals: Literals)
    requires ']' !in ip + port && IsIP(ip, literals) && BadPort(port, reason)
    ensures ParseBracketed("[" + ip + "]" + (":" + port), literals) == Refused(reason)
  {
    BadPortIs(port, reason);
    hide BadPort;
    hide PortRefusal;
    hide IsIP;
    hide ParseBracketed;
    Bracketed(ip, ":" + port, literals);
    assert (":" + port)[1..] == port;
  }

  lemma PlainRefusal(s: string, reason: Refusal, literals: Literals)
    requires s != [] && s[0] != '[' && Misspelled(s, reason, literals)
    ensures ParsePlain(s, literals) == Refused(reason)
  {
    hide IsIP;
    hide ValidHostname;
    if reason.ManyColons? {
      var a: string, b: string :| s == a + ":" + b && ':' !in a && ':' in b;
      ColonCut(a, b);
    } else if reason.HostEmpty? {
      var port: string :| s == ":" + port && ValidPort(port);
      assert s == [] + ":" + port;
      NoHost(port, literals);
    } else if reason.NotAHost? {
      var a: Authority :|
        && s == a.host + PortText(a.port) && ':' !in a.host && a.host != [] && (a.port.Some? ==> ValidPort(a.port.value))
        && !IsIP(a.host, literals) && !ValidHostname(a.host);
      UnfitHost(s, a, literals);
    } else {
      var host: string, port: string :| s == host + ":" + port && ':' !in host + port && BadPort(port, reason);
      ColonPort(host, port, reason, literals);
    }
  }

  lemma NoHost(port: string, literals: Literals)
    requires ValidPort(port)
    ensures ParsePlain([] + ":" + port, literals) == Refused(HostEmpty)
  {
    ColonCut([], port);
    PortIsSafe(Some(port));
    PortRefusalIs(port);
    hide PortRefusal;
    hide ValidPort;
    hide IsIP;
    hide ValidHostname;
  }

  lemma ColonPort(host: string, port: string, reason: Refusal, literals: Literals)
    requires ':' !in host + port && BadPort(port, reason)
    ensures ParsePlain(host + ":" + port, literals) == Refused(reason)
  {
    ColonCut(host, port);
    BadPortIs(port, reason);
    hide BadPort;
    hide PortRefusal;
    hide IsIP;
    hide ValidHostname;
  }

  lemma UnfitHost(s: string, a: Authority, literals: Literals)
    requires s == a.host + PortText(a.port) && ':' !in a.host && a.host != [] && (a.port.Some? ==> ValidPort(a.port.value))
    requires !IsIP(a.host, literals) && !ValidHostname(a.host)
    ensures ParsePlain(s, literals) == Refused(NotAHost)
  {
    hide IsIP;
    hide ValidHostname;
    if a.port.Some? {
      PortIsSafe(a.port);
      assert s == a.host + ":" + a.port.value;
      ColonCut(a.host, a.port.value);
      PortRefusalIs(a.port.value);
      hide PortRefusal;
    } else {
      assert s == a.host;
    }
  }

  /** The first offending character decides the refusal, and without one the first thing
      wrong with the brackets, the port and the host. */
  lemma RefusedFor(s: string, reason: Refusal, literals: Literals)
    ensures s == [] ==> Parse(s, literals) == Refused(Empty)
    ensures forall i :: 0 <= i < |s| && Offends(s[i], reason) && (forall j :: 0 <= j < i ==> !Offensive(s[j])) ==>
              Parse(s, literals) == Refused(reason)
    ensures s != [] && (forall i :: 0 <= i < |s| ==> !Offensive(s[i])) && Misspelled(s, reason, literals) ==>
              Parse(s, literals) == Refused(reason)
  {
    hide Misspelled;
    hide Offends;
    hide ParsePlain;
    hide ParseBracketed;
    forall i | 0 <= i < |s| && Offends(s[i], reason) && (forall j :: 0 <= j < i ==> !Offensive(s[j]))
      ensures FirstForbidden(s) == Some(reason)
    {
      FirstOffender(s, i, reason);
    }
    if s != [] && (forall i :: 0 <= i < |s| ==> !Offensive(s[i])) && Misspelled(s, reason, literals) {
      NoOffender(s);
      hide FirstForbidden;
      hide Offensive;
      if s[0] == '[' {
        BracketedRefusal(s, reason, literals);
      } else {
        PlainRefusal(s, reason, literals);
      }
    }
  }

  // --- as the source runs it -----------------------------------------------------------------------

  method ValidateHostname(host: string) returns (ok: bool)
    ensures ok == ValidHostname(host)
  {
    if host == [] || |host| > 253 {
      return false;
    }
    var parts := Split(host, '.');
    for i := 0 to |parts|
      invariant forall p <- parts[..i] :: ValidLabel(p)
    {
      var part := parts[i];
      assert part in parts;
      if |part| == 0 || |part| > 63 {
        return false;
      }
      if part[0] == '-' || part[|part| - 1] == '-' {
        return false;
      }
      for k := 0 to |part|
        invariant forall j :: 0 <= j < k ==> LabelChar(part[j])
      {
        if !LabelChar(part[k]) {
          return false;
        }
      }
    }
    return true;
  }

  method ValidatePort(port: string) returns (refusal: Option<Refusal>)
    ensures refusal == PortRefusal(port)
  {
    if port == [] {
      return Some(PortEmpty);
    }
    if |port| > 5 {
      return Some(PortTooLong);
    }
    for index := 0 to |port|
      invariant forall j :: 0 <= j < index ==> IsDigit(port[j])
    {
      if !IsDigit(port[index]) {
        return Some(PortNotANumber);
      }
    }
    var value := Number(port);
    if value < 1 || value > 65535 {
      return Some(PortOutOfRange);
    }
    return None;
  }

  method ScanChars(s: string) returns (refusal: Option<Refusal>)
    ensures refusal == FirstForbidden(s)
  {
    for i := 0 to |s|
      invariant FirstForbidden(s) == FirstForbidden(s[i..])
    {
      assert s[i..][1..] == s[i + 1..];
      if ForbiddenChar(s[i]).Some? {
        return ForbiddenChar(s[i]);
      }
    }
    return None;
  }

  method ParseAuthority(s: string, literals: Literals) returns (outcome: Outcome)
    ensures outcome == Parse(s, literals)
  {
    if s == [] {
      return Refused(Empty);
    }
    var forbidden := ScanChars(s);
    hide FirstForbidden;
    hide IsIP;
    hide ValidHostname;
    if forbidden.Some? {
      return Refused(forbidden.value);
    }
    var host, port: Option<string> := s, None;
    if s[0] == '[' {
      var closing := Find(s, ']');
      if closing == |s| {
        return Refused(NotClosed);
      }
      if ']' in s[closing + 1..] {
        return Refused(TwoClosings);
      }
      assert closing > 0;
      host := s[1..closing];
      if !IsIP(host, literals) {
        return Refused(NotAnIP);
      }
      var rest := s[closing + 1..];
      if rest == [] {
        return Accepted(Authority(host, None));
      }
      if rest[0] != ':' {
        return Refused(NotAPort);
      }
      var refusal := ValidatePort(rest[1..]);
      return if refusal.Some? then Refused(refusal.value) else Accepted(Authority(host, Some(rest[1..])));
    }
    var colon := Find(s, ':');
    if colon < |s| {
      if ':' in s[colon + 1..] {
        return Refused(ManyColons);
      }
      host, port := s[..colon], Some(s[colon + 1..]);
      var refusal := ValidatePort(port.value);
      if refusal.Some? {
        return Refused(refusal.value);
      }
    }
    if host == [] {
      return Refused(HostEmpty);
    }
    if !IsIP(host, literals) {
      var valid := ValidateHostname(host);
      if !valid {
        return Refused(NotAHost);
      }
    }
    return Accepted(Authority(host, port));
  }
}
