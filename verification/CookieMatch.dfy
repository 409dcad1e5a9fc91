// Cookies: what identifies one, which may be stored, and which are sent with a request.

module Cookies {
  import opened Text

  /** Times are in any unit, 0 being Go's zero time. */
  datatype Cookie = Cookie(
    id: string, name: string, value: string, domain: string, path: string,
    expires: nat, session: bool, secure: bool, httpOnly: bool, sameSite: string, hostOnly: bool,
    createdAt: nat, updatedAt: nat)

  /** What net.ParseIP and the public suffix list answer. */
  datatype Rules = Rules(isIP: string -> bool, isPublicSuffix: string -> bool)

  function Key(c: Cookie): string {
    Lower(c.domain) + "|" + c.path + "|" + c.name
  }

  predicate Expired(c: Cookie, now: nat) {
    !c.session && c.expires != 0 && c.expires <= now
  }

  predicate PrefixValid(c: Cookie) {
    if "__Host-" <= c.name then c.secure && c.hostOnly && c.path == "/"
    else if "__Secure-" <= c.name then c.secure
    else true
  }

  function TrimPrefixDot(s: string): string {
    if s != [] && s[0] == '.' then s[1..] else s
  }

  function NormalizeDomain(domain: string): string {
    var d := TrimPrefixDot(Lower(Trim(domain)));
    if d != [] && d[|d| - 1] == '.' then d[..|d| - 1] else d
  }

  predicate ValidName(name: string) {
    name != [] && forall c <- name :: ' ' < c < 0x7f as char && c !in "()<>@,;:\\\"/[]?={}"
  }

  predicate ValidDomain(domain: string, rules: Rules) {
    && domain != []
    && (rules.isIP(domain) ||
        ((forall c <- domain :: c !in " \t\r\n/:") && (forall part <- Split(domain, '.') :: part != [])))
  }

  /** ValidateForStorage without a source host. */
  predicate Storable(c: Cookie, rules: Rules) {
    var domain := NormalizeDomain(c.domain);
    && ValidName(Trim(c.name))
    && ValidDomain(domain, rules)
    && (rules.isIP(domain) ==> c.hostOnly)
    && !rules.isPublicSuffix(domain)
    && Trim(c.path) != [] && Trim(c.path)[0] == '/'
    && PrefixValid(c)
  }

  // --- what the key identifies -----------------------------------------------------------------

  /** A domain has no slash and a path starts with one. */
  predicate Shaped(c: Cookie) {
    '/' !in c.domain && c.path != [] && c.path[0] == '/'
  }

  predicate SameIdentity(a: Cookie, b: Cookie) {
    Lower(a.domain) == Lower(b.domain) && a.path == b.path && a.name == b.name
  }

  lemma LowerKeepsOut(s: string, c: char)
    requires !('a' <= c <= 'z') && c !in s
    ensures c !in Lower(s)
  {
    forall i | 0 <= i < |s|
      ensures Lower(s)[i] != c
    {
      assert s[i] in s;
    }
  }

  /** Where the separator is known to sit, equal texts split equally. */
  lemma SameSplit(p: string, q: string, x: string, y: string, sep: string)
    requires p + sep + x == q + sep + y && |p| == |q|
    ensures p == q && x == y
  {
    var s, t := p + sep + x, q + sep + y;
    assert p == s[..|p|] && q == t[..|q|];
    assert x == s[|p| + |sep|..] && y == t[|q| + |sep|..];
  }

  lemma FirstSlash(d: string, x: string)
    requires '/' !in d && x != [] && x[0] == '/'
    ensures Find(d + "|" + x, '/') == |d| + 1
  {
    hide Find;
    assert x == ['/'] + x[1..];
    assert d + "|" + x == d + "|" + ['/'] + x[1..];
    FindAppend(d + "|", '/', x[1..]);
  }

  /** Cookies with one key share their domain and their path and name joined by a bar. */
  lemma EqualKeys(a: Cookie, b: Cookie)
    requires Shaped(a) && Shaped(b)
    ensures Key(a) == Key(b) <==> Lower(a.domain) == Lower(b.domain) && a.path + "|" + a.name == b.path + "|" + b.name
  {
    LowerKeepsOut(a.domain, '/');
    LowerKeepsOut(b.domain, '/');
    KeyTail(a);
    KeyTail(b);
    hide Key;
    var x, y := a.path + "|" + a.name, b.path + "|" + b.name;
    assert x[0] == '/' && y[0] == '/';
    FirstSlash(Lower(a.domain), x);
    FirstSlash(Lower(b.domain), y);
    if Key(a) == Key(b) {
      SameSplit(Lower(a.domain), Lower(b.domain), x, y, "|");
    }
  }

  lemma KeyTail(c: Cookie)
    ensures Key(c) == Lower(c.domain) + "|" + (c.path + "|" + c.name)
  {
    hide Lower;
    assert Key(c) == Lower(c.domain) + "|" + (c.path + "|" + c.name);
  }

  lemma BarIsUnique(p: string, n: string, q: string, m: string)
    requires p + "|" + n == q + "|" + m && '|' !in p && '|' !in n
    ensures p == q && n == m
  {
    var s := p + "|" + n;
    forall k | 0 <= k < |s| && k != |p|
      ensures s[k] != '|'
    {
      assert k < |p| ==> s[k] in p;
      assert k > |p| ==> s[k] == n[k - |p| - 1];
    }
    assert (q + "|" + m)[|q|] == '|';
    SameSplit(p, q, n, m, "|");
  }

  /** The key stands for domain, path and name exactly when neither the cookie's path nor
      its name contains a bar, which storage allows in both. */
  lemma KeyIdentifies(c: Cookie)
    requires Shaped(c)
    ensures (forall other :: Shaped(other) && Key(other) == Key(c) ==> SameIdentity(other, c)) <==>
            '|' !in c.path && '|' !in c.name
  {
    if '|' !in c.path && '|' !in c.name {
      forall other | Shaped(other) && Key(other) == Key(c)
        ensures SameIdentity(other, c)
      {
        EqualKeys(c, other);
        BarIsUnique(c.path, c.name, other.path, other.name);
      }
    } else if '|' in c.path {
      var i := Find(c.path, '|');
      var other := c.(path := c.path[..i], name := c.path[i + 1..] + "|" + c.name);
      assert c.path == c.path[..i] + "|" + c.path[i + 1..];
      EqualKeys(c, other);
      assert Shaped(other) && Key(other) == Key(c) && !SameIdentity(other, c);
    } else {
      var i := Find(c.name, '|');
      var other := c.(path := c.path + "|" + c.name[..i], name := c.name[i + 1..]);
      assert c.name == c.name[..i] + "|" + c.name[i + 1..];
      assert c.path + "|" + c.name == other.path + "|" + other.name;
      EqualKeys(c, other);
      assert Shaped(other) && Key(other) == Key(c) && !SameIdentity(other, c);
    }
  }

  /** Storage reaches that: on every domain that may be stored two storable cookies differ
      and share a key. */
  lemma StorableCollide(c: Cookie, rules: Rules)
    requires Storable(c, rules)
    ensures var a, b := c.(path := "/x|y", name := "z"), c.(path := "/x", name := "y|z");
            Storable(a, rules) && Storable(b, rules) && Key(a) == Key(b) && !SameIdentity(a, b)
  {
    var a, b := c.(path := "/x|y", name := "z"), c.(path := "/x", name := "y|z");
    BarNames();
    hide Key;
    hide Trim;
    hide NormalizeDomain;
    hide ValidDomain;
    hide ValidName;
    assert a.path + "|" + a.name == b.path + "|" + b.name;
    KeyTail(a);
    KeyTail(b);
  }

  lemma BarNames()
    ensures ValidName(Trim("z")) && ValidName(Trim("y|z"))
    ensures Trim("/x|y") == "/x|y" && Trim("/x") == "/x"
  {
    TrimIsTrimmed("/x|y");
    TrimIsTrimmed("/x");
    TrimIsTrimmed("z");
    TrimIsTrimmed("y|z");
    hide Trim;
  }
}

module CookieMatch {
  import opened Cookies
  import opened Ordering
  import opened Text

  // --- paths -------------------------------------------------------------------------------------

  function TrimSlashes(p: string): (r: string)
    ensures r <= p
    ensures r == [] || r[|r| - 1] != '/'
    ensures forall i :: |r| <= i < |p| ==> p[i] == '/'
  {
    if p != [] && p[|p| - 1] == '/' then TrimSlashes(p[..|p| - 1]) else p
  }

  predicate PathMatch(cookiePath: string, requestPath: string) {
    var c := if cookiePath == [] then "/" else cookiePath;
    var r := if requestPath == [] then "/" else requestPath;
    c == "/" || r == c || TrimSlashes(c) + "/" <= r
  }

  /** Section 5.1.4 of RFC 6265. */
  predicate RfcPathMatch(c: string, r: string) {
    || r == c
    || (c <= r && c != [] && c[|c| - 1] == '/')
    || (c <= r && |c| < |r| && r[|c|] == '/')
  }

  predicate Absolute(p: string) {
    p != [] && p[0] == '/'
  }

  predicate EndsInTwoSlashes(p: string) {
    |p| >= 2 && p[|p| - 1] == '/' && p[|p| - 2] == '/'
  }

  lemma TrimmedOnce(p: string)
    requires p != [] && !EndsInTwoSlashes(p)
    ensures TrimSlashes(p) == if p[|p| - 1] == '/' then p[..|p| - 1] else p
  {
  }

  /** A cookie path means what the RFC says for every request exactly when it does not end
      in two slashes. */
  lemma PathMatchIsRfc(c: string)
    requires Absolute(c)
    ensures (forall r | Absolute(r) :: PathMatch(c, r) == RfcPathMatch(c, r)) <==> !EndsInTwoSlashes(c)
  {
    if EndsInTwoSlashes(c) {
      var r := TrimSlashes(c) + "/";
      assert |r| < |c|;
      assert r[0] == '/' by {
        if TrimSlashes(c) != [] { assert r[0] == TrimSlashes(c)[0] == c[0]; }
      }
      assert Absolute(r) && PathMatch(c, r) && !RfcPathMatch(c, r);
    } else {
      forall r | Absolute(r)
        ensures PathMatch(c, r) == RfcPathMatch(c, r)
      {
        PathMatchAgrees(c, r);
      }
    }
  }

  lemma PrefixThenSlash(c: string, r: string)
    ensures c + "/" <= r <==> c <= r && |c| < |r| && r[|c|] == '/'
  {
    if |c| < |r| {
      assert c + "/" <= r <==> r[..|c| + 1] == c + "/";
      assert r[..|c| + 1] == r[..|c|] + [r[|c|]];
    }
  }

  lemma PathMatchAgrees(c: string, r: string)
    requires Absolute(c) && Absolute(r) && !EndsInTwoSlashes(c)
    ensures PathMatch(c, r) == RfcPathMatch(c, r)
  {
    TrimmedOnce(c);
    var n := |c|;
    if c[n - 1] == '/' {
      assert c[..n - 1] + "/" == c;
    } else {
      PrefixThenSlash(c, r);
    }
    hide TrimSlashes;
  }

  function LastSlash(p: string): (i: int)
    ensures -1 <= i < |p|
    ensures i >= 0 ==> p[i] == '/'
    ensures forall k :: i < k < |p| ==> p[k] != '/'
  {
    if p == [] then -1 else if p[|p| - 1] == '/' then |p| - 1 else LastSlash(p[..|p| - 1])
  }

  /** The path of a cookie that names none, from the request's path. */
  function DefaultPath(r: string): string {
    if r == [] || r[0] != '/' || r == "/" || LastSlash(r) <= 0 then "/" else r[..LastSlash(r)]
  }

  /** A cookie set without a path goes back with the request that set it. */
  lemma DefaultPathMatches(r: string)
    ensures PathMatch(DefaultPath(r), r)
    ensures Absolute(r) ==> RfcPathMatch(DefaultPath(r), r)
  {
    var d := DefaultPath(r);
    if d != "/" {
      var t := TrimSlashes(d);
      assert r[..|t|] == t && r[|t|] == '/' by {
        if |t| < |d| { assert d[|t|] == '/'; }
      }
      assert r[..|t| + 1] == t + "/";
    }
  }

  /** A default path can end in two slashes, so the code can send a cookie the RFC would not. */
  lemma DefaultPathWithSlashes()
    ensures DefaultPath("/a///b") == "/a//" && PathMatch("/a//", "/a/c") && !RfcPathMatch("/a//", "/a/c")
  {
    var r := "/a///b";
    assert LastSlash(r) == 4 by {
      assert r[4] == '/' && r[5] == 'b';
      var i := LastSlash(r);
      assert i >= 4 && i != 5;
    }
    assert r[..4] == "/a//";
    assert TrimSlashes("/a//") == "/a" by {
      var t := TrimSlashes("/a//");
      assert |t| == 2 by { assert "/a//"[1] != '/'; assert t != []; assert |t| > 1 ==> t[1] == 'a'; assert t[0] == '/'; }
    }
    assert "/a" + "/" <= "/a/c";
  }

  /** The path of a request up to its last slash, if that is not its first character; in
      every other case the root. */
  lemma DefaultPathExactly(head: string, tail: string, r: string)
    requires '/' !in tail
    ensures DefaultPath("/" + head + "/" + tail) == "/" + head
    ensures DefaultPath("/" + tail) == "/"
    ensures !Absolute(r) ==> DefaultPath(r) == "/"
  {
    LastSlashAt("/" + head, tail);
    LastSlashAt("", tail);
    hide LastSlash;
    assert "" + "/" + tail == "/" + tail;
    assert ("/" + head + "/" + tail)[..|head| + 1] == "/" + head;
    assert "/" + head + "/" + tail != "/" by { assert |"/" + head + "/" + tail| >= 2; }
  }

  lemma {:induction false} LastSlashAt(front: string, tail: string)
    requires '/' !in tail
    ensures LastSlash(front + "/" + tail) == |front|
    decreases |tail|
  {
    var p := front + "/" + tail;
    if tail != [] {
      var n := |tail| - 1;
      assert p[|p| - 1] == tail[n] && p[..|p| - 1] == front + "/" + tail[..n];
      LastSlashAt(front, tail[..n]);
    } else {
      assert p == front + "/";
    }
  }

  // --- domains -----------------------------------------------------------------------------------

  predicate EndsWith(s: string, t: string) {
    |t| <= |s| && s[|s| - |t|..] == t
  }

  predicate DomainMatch(c: Cookie, requestHost: string) {
    var domain := TrimPrefixDot(Lower(c.domain));
    var host := Lower(Trim(requestHost));
    host == domain || (!c.hostOnly && EndsWith(host, "." + domain))
  }

  /** Section 5.1.3 of RFC 6265, over canonical names. */
  predicate RfcDomainMatch(host: string, domain: string, rules: Rules) {
    || host == domain
    || (|domain| < |host| && host[|host| - |domain|..] == domain && host[|host| - |domain| - 1] == '.' && !rules.isIP(host))
  }

  /** Domain matching is the RFC's except for an IP address with the domain as its tail,
      which the code lets match. */
  lemma DomainMatchIsRfc(c: Cookie, requestHost: string, rules: Rules)
    requires !c.hostOnly
    ensures var host, domain := Lower(Trim(requestHost)), TrimPrefixDot(Lower(c.domain));
            DomainMatch(c, requestHost) == RfcDomainMatch(host, domain, rules) <==>
            !(rules.isIP(host) && host != domain && EndsWith(host, "." + domain))
  {
    var host, domain := Lower(Trim(requestHost)), TrimPrefixDot(Lower(c.domain));
    if |domain| < |host| {
      var cut := |host| - |domain| - 1;
      assert host[cut..] == [host[cut]] + host[cut + 1..];
      assert ("." + domain)[1..] == domain;
    }
  }

  /** An address with the domain as its tail is such a case, for a cookie that may be
      stored. */
  lemma AddressTailMatches(c: Cookie, tail: string, rest: string, rules: Rules)
    requires c.domain == tail && Storable(c, rules) && !c.hostOnly && Lower(tail) == tail && TrimPrefixDot(tail) == tail
    requires var host := rest + "." + tail;
             rest != [] && Lower(Trim(host)) == host && rules.isIP(host)
    ensures DomainMatch(c, rest + "." + tail) && !RfcDomainMatch(rest + "." + tail, tail, rules)
  {
    hide Storable;
    hide Trim;
    hide Lower;
    hide IsSpace;
    var host := rest + "." + tail;
    assert host[|rest|..] == "." + tail;
  }

  /** What labels are made of here. */
  predicate LabelChar(c: char) {
    IsDigit(c) || 'a' <= c <= 'z'
  }

  /** A number of a dotted address, or a label of a name. */
  predicate Label(s: string) {
    s != [] && forall c <- s :: LabelChar(c)
  }

  /** A session cookie with a domain and the root path, as a response may set it. */
  function Plainest(domain: string): Cookie {
    Cookie("", "z", "", domain, "/", 0, true, false, false, "", false, 0, 0)
  }

  /** So with any dotted address: a cookie may be stored for its last three numbers, and the
      code sends it to the address. */
  lemma AddressTailReached(w: string, x: string, y: string, z: string, rules: Rules)
    requires Label(w) && Label(x) && Label(y) && Label(z)
    requires var tail := x + "." + (y + "." + z);
             rules.isIP(w + "." + tail) && !rules.isIP(tail) && !rules.isPublicSuffix(tail)
    ensures var tail := x + "." + (y + "." + z);
            var c := Plainest(tail);
            Storable(c, rules) && DomainMatch(c, w + "." + tail) && !RfcDomainMatch(w + "." + tail, tail, rules)
  {
    var tail := x + "." + (y + "." + z);
    var c := Plainest(tail);
    DottedJoin(y, z);
    DottedJoin(x, y + "." + z);
    DottedJoin(w, tail);
    DottedParts(x, y, z);
    hide Label;
    hide Storable;
    StorableTail(tail, rules);
    DottedDomain(tail);
    DottedDomain(w + "." + tail);
    hide Dotted;
    hide Trim;
    hide Lower;
    hide Split;
    hide NormalizeDomain;
    AddressTailMatches(c, tail, w, rules);
  }

  lemma StorableTail(tail: string, rules: Rules)
    requires Dotted(tail) && forall part <- Split(tail, '.') :: part != []
    requires !rules.isIP(tail) && !rules.isPublicSuffix(tail)
    ensures Storable(Plainest(tail), rules)
  {
    DottedDomain(tail);
    DottedChars(tail);
    BarNames();
    TrimIsTrimmed("/");
    hide Dotted;
    hide Trim;
    hide Lower;
    hide Split;
    hide NormalizeDomain;
    hide ValidName;
  }

  /** Labels and dots, with a label at both ends. */
  predicate Dotted(s: string) {
    s != [] && LabelChar(s[0]) && LabelChar(s[|s| - 1]) && forall c <- s :: LabelChar(c) || c == '.'
  }

  lemma DottedJoin(a: string, b: string)
    requires Label(a) && (Label(b) || Dotted(b))
    ensures Dotted(a + "." + b)
  {
    hide LabelChar;
    var s := a + "." + b;
    assert s[0] == a[0] && a[0] in a && s[|s| - 1] == b[|b| - 1] && b[|b| - 1] in b;
    forall c <- s
      ensures LabelChar(c) || c == '.'
    {
      assert c in a || c in "." || c in b;
    }
  }

  lemma LabelHasNoDot(s: string)
    requires Label(s)
    ensures '.' !in s && s != []
  {
  }

  lemma DottedParts(x: string, y: string, z: string)
    requires Label(x) && Label(y) && Label(z)
    ensures Split(x + "." + (y + "." + z), '.') == [x, y, z] && x != [] && y != [] && z != []
    ensures Split(y + "." + z, '.') == [y, z]
  {
    LabelHasNoDot(x);
    LabelHasNoDot(y);
    LabelHasNoDot(z);
    hide Label;
    SplitCons(x, '.', y + "." + z);
    SplitCons(y, '.', z);
    SplitOne(z, '.');
    hide Split;
  }

  lemma DottedChars(s: string)
    requires Dotted(s)
    ensures Lower(s) == s && forall c <- s :: !IsSpace(c) && c !in " \t\r\n/:"
  {
    hide Lower;
    forall i | 0 <= i < |s|
      ensures Lower(s)[i] == s[i]
    {
      assert s[i] in s;
    }
    assert Lower(s) == s;
  }

  /** Nothing to trim, to lower or to strip. */
  lemma NormalizedAlready(s: string)
    requires s != [] && s[0] != '.' && s[|s| - 1] != '.' && Trim(s) == s && Lower(s) == s
    ensures NormalizeDomain(s) == s && TrimPrefixDot(s) == s
  {
    hide Trim;
    hide Lower;
  }

  lemma DottedEnds(s: string)
    requires Dotted(s)
    ensures s != [] && s[0] != '.' && s[|s| - 1] != '.'
  {
  }

  lemma DottedDomain(s: string)
    requires Dotted(s)
    ensures NormalizeDomain(s) == s && Lower(s) == s && Trim(s) == s && TrimPrefixDot(s) == s
  {
    hide NormalizeDomain;
    hide TrimPrefixDot;
    hide Trim;
    hide Lower;
    hide IsSpace;
    DottedEnds(s);
    DottedChars(s);
    hide Dotted;
    NoSpaces(s);
    NormalizedAlready(s);
  }

  // --- the cookies of a response -----------------------------------------------------------------

  /** A cookie as a response from a host names it, completed: its domain defaults to the
      host, its path to the one of the request. */
  function FromResponse(raw: Cookie, host: string, requestPath: string): Cookie {
    var domain := NormalizeDomain(raw.domain);
    raw.(domain := if domain == [] then host else domain,
         hostOnly := domain == [],
         path := if raw.path == [] then DefaultPath(requestPath) else if raw.path[0] != '/' then "/" else raw.path)
  }

  /** ValidateForStorage against the host that sets the cookie. */
  predicate Accepted(c: Cookie, host: string, rules: Rules) {
    var source := NormalizeDomain(host);
    && Storable(c, rules)
    && (source != [] ==>
          ValidDomain(source, rules) &&
          if c.hostOnly then NormalizeDomain(c.domain) == source else DomainMatch(c, source))
  }

  /** A host as a parsed URL gives it. */
  predicate UrlHost(host: string) {
    host != [] && host[0] != '.' && Lower(host) == host && forall c <- host :: !IsSpace(c)
  }

  /** What net.ParseIP accepts does not end in a dot. */
  ghost predicate Addresses(rules: Rules) {
    forall s :: rules.isIP(s) ==> s != [] && s[|s| - 1] != '.'
  }

  lemma NoSpaces(s: string)
    requires forall c <- s :: !IsSpace(c)
    ensures Trim(s) == s
  {
    if s != [] {
      assert s[0] in s && s[|s| - 1] in s;
    }
    TrimIsTrimmed(s);
  }

  lemma SplitStep(s: string)
    requires '.' in s
    ensures var i := Find(s, '.');
            i < |s| && s[i] == '.' && Split(s, '.') == [s[..i]] + Split(s[i + 1..], '.')
  {
    assert Find(s, '.') < |s|;
    hide Find;
  }

  lemma {:induction false} LastPart(s: string)
    requires s != [] && s[|s| - 1] == '.'
    ensures [] in Split(s, '.')
    decreases |s|
  {
    SplitStep(s);
    hide Split;
    hide Find;
    var i := Find(s, '.');
    var rest := s[i + 1..];
    if rest == [] {
      SplitOne(rest, '.');
    } else {
      assert rest[|rest| - 1] == s[|s| - 1];
      LastPart(rest);
    }
    InTail(s[..i], Split(rest, '.'), []);
  }

  lemma InTail(first: string, rest: seq<string>, part: string)
    requires part in rest
    ensures part in [first] + rest
  {
  }

  lemma ValidHasNoLastDot(domain: string, rules: Rules)
    requires ValidDomain(domain, rules) && Addresses(rules)
    ensures domain != [] && domain[|domain| - 1] != '.'
  {
    if domain[|domain| - 1] == '.' && !rules.isIP(domain) {
      LastPart(domain);
    }
  }

  /** The host as storage sees it, without a dot at its end. */
  lemma SourceHost(host: string)
    requires UrlHost(host)
    ensures NormalizeDomain(host) == if host[|host| - 1] == '.' then host[..|host| - 1] else host
    ensures var source := NormalizeDomain(host); Lower(Trim(source)) == source
    ensures Lower(Trim(host)) == host
  {
    hide Trim;
    hide Lower;
    hide IsSpace;
    NoSpaces(host);
    var source := if host[|host| - 1] == '.' then host[..|host| - 1] else host;
    assert NormalizeDomain(host) == source;
    forall c <- source
      ensures c in host
    {
      var i :| 0 <= i < |source| && source[i] == c;
      assert host[i] == c;
    }
    NoSpaces(source);
    assert forall i :: 0 <= i < |source| ==> Lower(source)[i] == LowerChar(host[i]) == Lower(host)[i];
    assert Lower(source) == source;
  }

  /** A response cookie that may be stored is accepted from its own host if it names no
      domain, and otherwise exactly when the domain it names is the host or above it. */
  lemma AcceptedExactly(raw: Cookie, host: string, requestPath: string, rules: Rules)
    requires UrlHost(host) && host[|host| - 1] != '.' && ValidDomain(host, rules)
    requires Storable(FromResponse(raw, host, requestPath), rules)
    ensures var c := FromResponse(raw, host, requestPath);
            && Accepted(c, host, rules) <==>
               (NormalizeDomain(raw.domain) != [] ==>
                  var d := TrimPrefixDot(Lower(NormalizeDomain(raw.domain)));
                  host == d || EndsWith(host, "." + d))
  {
    SourceHost(host);
    hide NormalizeDomain;
    hide ValidDomain;
    hide Storable;
    hide Trim;
    hide Lower;
    hide DefaultPath;
  }

  /** What a response cookie becomes: its own domain or, for the host alone, the host; its
      own path, the root for one that is not absolute, the request's directory for none. */
  lemma FromResponseExactly(raw: Cookie, host: string, requestPath: string)
    ensures var c := FromResponse(raw, host, requestPath);
            && c == raw.(domain := c.domain, hostOnly := c.hostOnly, path := c.path)
            && (NormalizeDomain(raw.domain) == [] ==> c.hostOnly && c.domain == host)
            && (NormalizeDomain(raw.domain) != [] ==> !c.hostOnly && c.domain == NormalizeDomain(raw.domain))
            && (Absolute(raw.path) ==> c.path == raw.path)
            && (raw.path != [] && !Absolute(raw.path) ==> c.path == "/")
            && (raw.path == [] ==> c.path == DefaultPath(requestPath))
  {
    hide NormalizeDomain;
    hide DefaultPath;
  }

  lemma TailLast(s: string, domain: string)
    requires s != [] && (s == domain || EndsWith(s, "." + domain))
    ensures s[|s| - 1] == if domain == [] then '.' else domain[|domain| - 1]
  {
    if s != domain {
      var t := "." + domain;
      assert s[|s| - |t|..][|t| - 1] == s[|s| - 1];
    }
  }

  /** A cookie set without a domain goes back to exactly the host that set it, one set with
      a domain goes back to that host exactly when the host is not written with a dot at its
      end: only storing overlooks the dot. */
  lemma SetterGetsItBack(raw: Cookie, host: string, requestPath: string, rules: Rules)
    requires UrlHost(host) && Addresses(rules) && host != "." && Accepted(FromResponse(raw, host, requestPath), host, rules)
    ensures var c := FromResponse(raw, host, requestPath);
            && (c.hostOnly ==> forall h :: DomainMatch(c, h) <==> Lower(Trim(h)) == host)
            && (!c.hostOnly ==> (DomainMatch(c, host) <==> host[|host| - 1] != '.'))
            && (raw.path == [] ==> PathMatch(c.path, requestPath))
  {
    var c := FromResponse(raw, host, requestPath);
    SourceHost(host);
    DefaultPathMatches(requestPath);
    var source, domain := NormalizeDomain(host), TrimPrefixDot(Lower(c.domain));
    assert source != [];
    ValidHasNoLastDot(source, rules);
    hide NormalizeDomain;
    hide Trim;
    hide ValidDomain;
    hide Storable;
    hide PathMatch;
    hide DefaultPath;
    hide Lower;
    if !c.hostOnly {
      TailLast(source, domain);
      if DomainMatch(c, host) {
        TailLast(host, domain);
      }
    }
  }

  /** The dot is enough: for a domain of two labels that is neither an address nor a public
      suffix, a cookie set with that domain by its own host is stored, and does not go back
      to the host as it is written. */
  lemma DotAtTheEndLosesCookie(x: string, y: string, rules: Rules)
    requires Label(x) && Label(y) && !rules.isIP(x + "." + y) && !rules.isPublicSuffix(x + "." + y)
    ensures var domain := x + "." + y;
            var c := FromResponse(Plainest(domain), domain + ".", "/");
            UrlHost(domain + ".") && !c.hostOnly && Accepted(c, domain + ".", rules) && !DomainMatch(c, domain + ".")
  {
    DottedJoin(x, y);
    DottedParts(x, x, y);
    hide Label;
    hide Split;
    NamedCookieIsLost(x + "." + y, rules);
    hide FromResponse;
    hide UrlHost;
    hide Accepted;
    hide DomainMatch;
  }

  lemma NamedCookieIsLost(domain: string, rules: Rules)
    requires Dotted(domain) && forall part <- Split(domain, '.') :: part != []
    requires !rules.isIP(domain) && !rules.isPublicSuffix(domain)
    ensures var c := FromResponse(Plainest(domain), domain + ".", "/");
            UrlHost(domain + ".") && !c.hostOnly && Accepted(c, domain + ".", rules) && !DomainMatch(c, domain + ".")
  {
    var host, raw := domain + ".", Plainest(domain);
    DottedDomain(domain);
    StorableTail(domain, rules);
    DottedHost(domain);
    DottedValid(domain, rules);
    DottedEnds(domain);
    hide Dotted;
    hide Split;
    hide Trim;
    hide Lower;
    hide UrlHost;
    hide Storable;
    hide NormalizeDomain;
    hide ValidDomain;
    hide TrimPrefixDot;
    Completed(raw, host, "/");
    hide FromResponse;
    NamesItself(raw, host, rules);
    hide Accepted;
    NotSentBack(raw, host);
    hide DomainMatch;
  }

  lemma Completed(raw: Cookie, host: string, requestPath: string)
    requires raw.domain != [] && NormalizeDomain(raw.domain) == raw.domain && raw.path == "/" && !raw.hostOnly
    ensures FromResponse(raw, host, requestPath) == raw
  {
    hide NormalizeDomain;
    hide DefaultPath;
  }

  lemma NamesItself(c: Cookie, host: string, rules: Rules)
    requires Storable(c, rules) && !c.hostOnly && ValidDomain(c.domain, rules) && NormalizeDomain(host) == c.domain
    requires Lower(c.domain) == c.domain && Trim(c.domain) == c.domain && TrimPrefixDot(c.domain) == c.domain
    ensures Accepted(c, host, rules)
  {
    hide Storable;
    hide ValidDomain;
    hide NormalizeDomain;
    hide Trim;
    hide Lower;
  }

  lemma NotSentBack(c: Cookie, host: string)
    requires c.domain != [] && c.domain[0] != '.' && host == c.domain + "." && Lower(Trim(host)) == host
    requires Lower(c.domain) == c.domain && TrimPrefixDot(c.domain) == c.domain
    ensures !DomainMatch(c, host)
  {
    hide Trim;
    hide Lower;
    assert host[0] == c.domain[0] && ("." + c.domain)[0] == '.';
    assert host[0..] == host;
  }

  lemma DottedValid(domain: string, rules: Rules)
    requires Dotted(domain) && forall part <- Split(domain, '.') :: part != []
    ensures ValidDomain(domain, rules)
  {
    DottedChars(domain);
    hide Split;
    hide Lower;
    hide IsSpace;
  }

  lemma DottedHost(domain: string)
    requires Dotted(domain)
    ensures var host := domain + ".";
            UrlHost(host) && NormalizeDomain(host) == domain && Lower(Trim(host)) == host
  {
    var host := domain + ".";
    DottedChars(domain);
    DottedEnds(domain);
    hide Dotted;
    hide Lower;
    assert forall i :: 0 <= i < |domain| ==> Lower(host)[i] == LowerChar(domain[i]) == Lower(domain)[i];
    assert Lower(host) == host;
    assert forall c <- host :: c in domain || c == '.';
    hide NormalizeDomain;
    hide Trim;
    SourceHost(host);
    assert host[..|host| - 1] == domain;
  }

  // --- the cookies of a request ------------------------------------------------------------------

  /** A request as the jar sees it: its host in lower case, its path, and whether its origin
      is potentially trustworthy. */
  datatype Target = Target(host: string, path: string, trustworthy: bool)

  predicate Eligible(c: Cookie, target: Target, now: nat, rules: Rules) {
    && !Expired(c, now) && c.name != [] && Storable(c, rules)
    && (c.secure ==> target.trustworthy)
    && DomainMatch(c, target.host) && PathMatch(c.path, target.path)
  }

  function EligibleOf(jar: seq<Cookie>, target: Target, now: nat, rules: Rules): seq<Cookie> {
    if jar == [] then []
    else
      var n := |jar| - 1;
      EligibleOf(jar[..n], target, now, rules) + if Eligible(jar[n], target, now, rules) then [jar[n]] else []
  }

  /** Longer paths first, then older cookies first. */
  predicate SendsBefore(a: Cookie, b: Cookie) {
    if |a.path| != |b.path| then |a.path| > |b.path| else a.createdAt < b.createdAt
  }

  predicate SendLeq(a: Cookie, b: Cookie) {
    !SendsBefore(b, a)
  }

  function ForURL(jar: seq<Cookie>, target: Target, now: nat, rules: Rules): seq<Cookie> {
    StableSort(SendLeq, EligibleOf(jar, target, now, rules))
  }

  lemma SendOrder()
    ensures TotalPreorder(SendLeq)
  {
  }

  lemma {:induction false} EligibleExactly(jar: seq<Cookie>, target: Target, now: nat, rules: Rules, c: Cookie)
    ensures c in EligibleOf(jar, target, now, rules) <==> c in jar && Eligible(c, target, now, rules)
  {
    if jar != [] {
      var n := |jar| - 1;
      EligibleExactly(jar[..n], target, now, rules, c);
      assert jar == jar[..n] + [jar[n]];
    }
  }

  /** Exactly the eligible cookies go out, in the order of section 5.4 of RFC 6265; those
      that tie keep their order in the jar. */
  lemma SentCookies(jar: seq<Cookie>, target: Target, now: nat, rules: Rules, c: Cookie)
    ensures var sent := ForURL(jar, target, now, rules);
            && (c in sent <==> c in jar && Eligible(c, target, now, rules))
            && (forall i, j :: 0 <= i < j < |sent| ==>
                  |sent[i].path| > |sent[j].path| ||
                  (|sent[i].path| == |sent[j].path| && sent[i].createdAt <= sent[j].createdAt))
            && Ties(SendLeq, c, sent) == Ties(SendLeq, c, EligibleOf(jar, target, now, rules))
  {
    var eligible := EligibleOf(jar, target, now, rules);
    EligibleExactly(jar, target, now, rules, c);
    SendOrder();
    InSorted(SendLeq, eligible, c);
    SortSorted(SendLeq, eligible);
    SortStable(SendLeq, c, eligible);
    var sent := ForURL(jar, target, now, rules);
    forall i, j | 0 <= i < j < |sent|
      ensures SendLeq(sent[i], sent[j])
    {
    }
  }

  method CookiesForURL(jar: seq<Cookie>, target: Target, now: nat, rules: Rules) returns (matching: seq<Cookie>)
    ensures matching == ForURL(jar, target, now, rules)
  {
    matching := [];
    for i := 0 to |jar|
      invariant matching == EligibleOf(jar[..i], target, now, rules)
    {
      var cookie := jar[i];
      assert jar[..i + 1][..i] == jar[..i];
      if Expired(cookie, now) || cookie.name == [] || !PrefixValid(cookie) {
        continue;
      }
      if !Storable(cookie, rules) {
        continue;
      }
      if cookie.secure && !target.trustworthy {
        continue;
      }
      if !DomainMatch(cookie, target.host) || !PathMatch(cookie.path, target.path) {
        continue;
      }
      matching := matching + [cookie];
    }
    assert jar[..|jar|] == jar;
    matching := StableSort(SendLeq, matching);
  }
}
