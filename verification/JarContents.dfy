// Which cookies the jar holds after each operation, and which it sends, cookie by cookie.

module JarContents {
  import opened CookieMatch
  import opened Cookies
  import opened CookieStore
  import opened Ordering
  import opened Text

  predicate Unexpired(c: Cookie, now: nat) {
    c.session || c.expires == 0 || now < c.expires
  }

  /** The cookie with the root path where it names none. */
  function Rooted(c: Cookie): Cookie {
    if c.path == [] then c.(path := "/") else c
  }

  /** The cookie with its key for an id where it has none. */
  function Labelled(c: Cookie): Cookie {
    if c.id == [] then c.(id := Key(c)) else c
  }

  /** What lets a cookie into the jar: a token for a name, a valid domain that is no public
      suffix, an address only for itself, an absolute path, and what the name's prefix
      promises. */
  predicate Welcome(c: Cookie, rules: Rules) {
    var domain, path := NormalizeDomain(c.domain), Trim(Rooted(c).path);
    && c.name != [] && c.domain != [] && ValidName(Trim(c.name))
    && ValidDomain(domain, rules) && !rules.isPublicSuffix(domain) && (rules.isIP(domain) ==> c.hostOnly)
    && path != [] && path[0] == '/'
    && ("__Secure-" <= c.name || "__Host-" <= c.name ==> c.secure)
    && ("__Host-" <= c.name ==> c.hostOnly && Rooted(c).path == "/")
  }

  lemma WelcomeIsStorable(c: Cookie, id: string, rules: Rules)
    ensures Welcome(c, rules) <==> c.name != [] && c.domain != [] && Storable(Rooted(c).(id := id), rules)
  {
    hide ValidName;
    hide ValidDomain;
    hide NormalizeDomain;
    hide Trim;
    assert "__Host-"[2] != "__Secure-"[2];
    assert "__Host-" <= c.name ==> c.name[2] == "__Host-"[2];
    assert "__Secure-" <= c.name ==> c.name[2] == "__Secure-"[2];
  }

  /** A response cookie enters the jar exactly when it is welcome, with its times set. */
  lemma PreparedExactly(c: Cookie, now: nat, rules: Rules)
    ensures Prepared(c, now, rules).Some? <==> Welcome(c, rules)
    ensures Welcome(c, rules) ==>
            Prepared(c, now, rules).value ==
            Labelled(Rooted(c)).(updatedAt := now, createdAt := if c.createdAt != 0 then c.createdAt else now)
  {
    WelcomeIsStorable(c, Labelled(Rooted(c)).id, rules);
    hide Storable;
    hide Welcome;
    hide Key;
  }

  /** A cookie a script leaves behind counts exactly when it is welcome and not expired. */
  lemma RuntimeExactly(c: Cookie, now: nat, rules: Rules)
    ensures PreparedRuntime(c, now, rules).Some? <==> Welcome(c, rules) && Unexpired(c, now)
    ensures Welcome(c, rules) && Unexpired(c, now) ==> PreparedRuntime(c, now, rules).value == Labelled(Rooted(c))
  {
    WelcomeIsStorable(c, Labelled(Rooted(c)).id, rules);
    hide Storable;
    hide Key;
    assert Welcome(c, rules) ==> c.name != [] && c.domain != [];
    hide Welcome;
  }

  // --- after a response ------------------------------------------------------------------------

  /** The cookie is let in under the key. */
  predicate Bears(c: Cookie, k: string, rules: Rules) {
    Welcome(c, rules) && Key(Rooted(c)) == k
  }

  predicate LastOf(cookies: seq<Cookie>, i: nat, k: string, rules: Rules) {
    i < |cookies| && Bears(cookies[i], k, rules) && forall j :: i < j < |cookies| ==> !Bears(cookies[j], k, rules)
  }

  /** The response's cookie as the jar holds it, of whatever creation time. */
  predicate Came(c: Cookie, d: Cookie, now: nat) {
    d == Labelled(Rooted(c)).(updatedAt := now, createdAt := d.createdAt)
  }

  lemma SetExactly(m: map<string, Cookie>, c: Cookie, now: nat, rules: Rules, k: string)
    ensures var r := SetCookie(m, c, now, rules);
            if !Bears(c, k, rules) then Lookup(r, k) == Lookup(m, k)
            else if Unexpired(c, now) then
              && k in r && Came(c, r[k], now)
              && r[k].createdAt == if k in m && m[k].createdAt != 0 then m[k].createdAt
                                   else if c.createdAt != 0 then c.createdAt else now
            else k !in r
  {
    PreparedExactly(c, now, rules);
    hide Welcome;
    hide Prepared;
    if Welcome(c, rules) {
      PutExactly(m, c, Prepared(c, now, rules).value, now, k);
    }
    hide SetOrDelete;
    hide Key;
    hide Came;
    hide Unexpired;
  }

  lemma PutExactly(m: map<string, Cookie>, c: Cookie, p: Cookie, now: nat, k: string)
    requires p == Labelled(Rooted(c)).(updatedAt := now, createdAt := if c.createdAt != 0 then c.createdAt else now)
    ensures var r := SetOrDelete(m, p, now);
            if Key(Rooted(c)) != k then Lookup(r, k) == Lookup(m, k)
            else if Unexpired(c, now) then
              && k in r && Came(c, r[k], now)
              && r[k].createdAt == if k in m && m[k].createdAt != 0 then m[k].createdAt
                                   else if c.createdAt != 0 then c.createdAt else now
            else k !in r
  {
    assert Key(p) == Key(Rooted(c));
    hide Key;
  }

  lemma {:induction false} NoneSet(m: map<string, Cookie>, cookies: seq<Cookie>, now: nat, rules: Rules, k: string)
    requires forall c <- cookies :: !Bears(c, k, rules)
    ensures Lookup(SetCookies(m, cookies, now, rules), k) == Lookup(m, k)
  {
    hide Bears;
    if cookies != [] {
      var n := |cookies| - 1;
      assert forall c <- cookies[..n] :: c in cookies;
      NoneSet(m, cookies[..n], now, rules, k);
      SetExactly(SetCookies(m, cookies[..n], now, rules), cookies[n], now, rules, k);
      hide SetCookie;
    }
  }

  lemma {:induction false} LastSet(m: map<string, Cookie>, cookies: seq<Cookie>, now: nat, rules: Rules, k: string, i: nat)
    requires LastOf(cookies, i, k, rules)
    ensures var r := SetCookies(m, cookies, now, rules);
            && (k in r <==> Unexpired(cookies[i], now))
            && (k in r ==> Came(cookies[i], r[k], now))
    decreases |cookies|
  {
    hide Bears;
    hide Came;
    hide Unexpired;
    var n := |cookies| - 1;
    SetExactly(SetCookies(m, cookies[..n], now, rules), cookies[n], now, rules, k);
    hide SetCookie;
    if i < n {
      LastSet(m, cookies[..n], now, rules, k, i);
    }
  }

  lemma HeldExactly(jar: Jar, d: Cookie)
    requires DistinctKeys(jar)
    ensures d in jar <==> Lookup(AsMap(jar), Key(d)) == Some(d)
  {
    InJar(jar);
    hide AsMap;
    hide Key;
  }

  lemma StoredHolds(jar: Jar, cookies: seq<Cookie>, now: nat, rules: Rules, d: Cookie)
    requires DistinctKeys(jar)
    ensures d in Stored(jar, cookies, now, rules) <==>
            Lookup(SetCookies(AsMap(jar), cookies, now, rules), Key(d)) == Some(d) && Unexpired(d, now)
  {
    StoredIsFold(jar, cookies, now, rules);
    HeldExactly(Stored(jar, cookies, now, rules), d);
    hide Stored;
    hide AsMap;
    hide SetCookies;
    hide DistinctKeys;
    hide Key;
  }

  /** What a response says nothing of stays unless it has expired. */
  lemma UnsetStays(jar: Jar, cookies: seq<Cookie>, now: nat, rules: Rules, d: Cookie)
    requires DistinctKeys(jar) && forall c <- cookies :: !Bears(c, Key(d), rules)
    ensures d in Stored(jar, cookies, now, rules) <==> d in jar && Unexpired(d, now)
  {
    StoredHolds(jar, cookies, now, rules, d);
    HeldExactly(jar, d);
    hide Bears;
    hide Key;
    NoneSet(AsMap(jar), cookies, now, rules, Key(d));
    hide Stored;
    hide AsMap;
    hide SetCookies;
    hide DistinctKeys;
  }

  /** Under each key a response sets, the jar then holds the last cookie it set for it,
      and nothing if that has expired. */
  lemma LastSetIsHeld(jar: Jar, cookies: seq<Cookie>, now: nat, rules: Rules, k: string, i: nat)
    requires DistinctKeys(jar) && LastOf(cookies, i, k, rules)
    ensures var r := Stored(jar, cookies, now, rules);
            && ((exists d <- r :: Key(d) == k) <==> Unexpired(cookies[i], now))
            && forall d <- r :: Key(d) == k ==> Came(cookies[i], d, now)
  {
    var r, all := Stored(jar, cookies, now, rules), SetCookies(AsMap(jar), cookies, now, rules);
    LastSet(AsMap(jar), cookies, now, rules, k, i);
    hide Stored;
    hide AsMap;
    hide SetCookies;
    hide Welcome;
    hide DistinctKeys;
    assert k in all ==> Key(all[k]) == k && Unexpired(all[k], now);
    hide Came;
    hide LastOf;
    hide Key;
    hide Unexpired;
    if k in all {
      StoredHolds(jar, cookies, now, rules, all[k]);
    }
    forall d <- r | Key(d) == k
      ensures k in all && all[k] == d
    {
      StoredHolds(jar, cookies, now, rules, d);
    }
  }

  lemma SetAlone(m: map<string, Cookie>, cookies: seq<Cookie>, now: nat, rules: Rules, k: string)
    requires cookies != [] && forall j :: 0 <= j < |cookies| - 1 ==> !Bears(cookies[j], k, rules)
    requires var c := cookies[|cookies| - 1]; Bears(c, k, rules) && Unexpired(c, now)
    ensures var r, c := SetCookies(m, cookies, now, rules), cookies[|cookies| - 1];
            k in r && r[k].createdAt == if k in m && m[k].createdAt != 0 then m[k].createdAt
                                        else if c.createdAt != 0 then c.createdAt else now
  {
    hide Bears;
    hide Came;
    hide Unexpired;
    var n := |cookies| - 1;
    forall c <- cookies[..n]
      ensures !Bears(c, k, rules)
    {
      var j :| 0 <= j < n && cookies[..n][j] == c;
      assert cookies[j] == c;
    }
    NoneSet(m, cookies[..n], now, rules, k);
    SetExactly(SetCookies(m, cookies[..n], now, rules), cookies[n], now, rules, k);
    hide SetCookie;
  }

  lemma {:induction false} OnlySet(m: map<string, Cookie>, cookies: seq<Cookie>, now: nat, rules: Rules, k: string, i: nat)
    requires LastOf(cookies, i, k, rules) && forall j :: 0 <= j < i ==> !Bears(cookies[j], k, rules)
    requires Unexpired(cookies[i], now)
    ensures var r, c := SetCookies(m, cookies, now, rules), cookies[i];
            k in r && r[k].createdAt == if k in m && m[k].createdAt != 0 then m[k].createdAt
                                        else if c.createdAt != 0 then c.createdAt else now
    decreases |cookies|
  {
    hide Bears;
    hide Came;
    hide Unexpired;
    var n := |cookies| - 1;
    if i < n {
      OnlySet(m, cookies[..n], now, rules, k, i);
      SetExactly(SetCookies(m, cookies[..n], now, rules), cookies[n], now, rules, k);
      hide SetCookie;
    } else {
      SetAlone(m, cookies, now, rules, k);
      hide SetCookies;
    }
  }

  /** A cookie that displaces another keeps the time that one was created. */
  lemma CreationTimeStays(jar: Jar, cookies: seq<Cookie>, now: nat, rules: Rules, held: Cookie, i: nat, d: Cookie)
    requires DistinctKeys(jar) && held in jar && held.createdAt != 0 && LastOf(cookies, i, Key(held), rules)
    requires forall j :: 0 <= j < i ==> !Bears(cookies[j], Key(held), rules)
    requires d in Stored(jar, cookies, now, rules) && Key(d) == Key(held)
    ensures d.createdAt == held.createdAt
  {
    StoredHolds(jar, cookies, now, rules, d);
    HeldExactly(jar, held);
    LastSet(AsMap(jar), cookies, now, rules, Key(held), i);
    hide Came;
    hide Unexpired;
    hide Bears;
    hide Key;
    hide SetCookies;
    hide AsMap;
    hide Stored;
    hide DistinctKeys;
    OnlySet(AsMap(jar), cookies, now, rules, Key(held), i);
  }

  /** Filtering keeps the order. */
  lemma {:induction false} FilterInOrder(jar: Jar, keep: Cookie -> bool, i: nat, j: nat) returns (p: nat, q: nat)
    requires i < j < |jar| && keep(jar[i]) && keep(jar[j])
    ensures p < q < |Filter(jar, keep)| && Filter(jar, keep)[p] == jar[i] && Filter(jar, keep)[q] == jar[j]
  {
    var n := |jar| - 1;
    if j < n {
      p, q := FilterInOrder(jar[..n], keep, i, j);
    } else {
      InFilter(jar[..n], keep);
      var f := Filter(jar[..n], keep);
      assert jar[..n][i] in f;
      p :| 0 <= p < |f| && f[p] == jar[i];
      q := |f|;
    }
  }

  lemma {:induction false} StoreEachInOrder(jar: Jar, cookies: seq<Cookie>, now: nat, rules: Rules, i: nat, j: nat) returns (p: nat, q: nat)
    requires i < j < |jar|
    requires forall c <- cookies :: !Bears(c, Key(jar[i]), rules) && !Bears(c, Key(jar[j]), rules)
    ensures var r := StoreEach(jar, cookies, now, rules); p < q < |r| && r[p] == jar[i] && r[q] == jar[j]
  {
    if cookies == [] {
      p, q := i, j;
    } else {
      var n := |cookies| - 1;
      var before, c := StoreEach(jar, cookies[..n], now, rules), cookies[n];
      assert c in cookies && forall d <- cookies[..n] :: d in cookies;
      p, q := StoreEachInOrder(jar, cookies[..n], now, rules, i, j);
      hide Bears;
      hide Key;
      hide StoreOne;
      p, q := StoreOneInOrder(before, c, now, rules, p, q);
    }
  }

  lemma StoreOneInOrder(jar: Jar, c: Cookie, now: nat, rules: Rules, i: nat, j: nat) returns (p: nat, q: nat)
    requires i < j < |jar| && !Bears(c, Key(jar[i]), rules) && !Bears(c, Key(jar[j]), rules)
    ensures var r := StoreOne(jar, c, now, rules); p < q < |r| && r[p] == jar[i] && r[q] == jar[j]
  {
    PreparedExactly(c, now, rules);
    hide Welcome;
    hide Prepared;
    if Welcome(c, rules) {
      var d := Prepared(c, now, rules).value;
      assert Key(d) == Key(Rooted(c));
      hide Key;
      hide Filter;
      p, q := FilterInOrder(jar, OtherKey(Key(d)), i, j);
    } else {
      p, q := i, j;
    }
  }

  /** Cookies a response says nothing of keep their order; what it sets last stands last. */
  lemma StoredInOrder(jar: Jar, cookies: seq<Cookie>, now: nat, rules: Rules, i: nat, j: nat) returns (p: nat, q: nat)
    requires i < j < |jar| && Unexpired(jar[i], now) && Unexpired(jar[j], now)
    requires forall c <- cookies :: !Bears(c, Key(jar[i]), rules) && !Bears(c, Key(jar[j]), rules)
    ensures var r := Stored(jar, cookies, now, rules); p < q < |r| && r[p] == jar[i] && r[q] == jar[j]
  {
    p, q := StoreEachInOrder(jar, cookies, now, rules, i, j);
    hide Bears;
    hide Key;
    hide StoreEach;
    hide Filter;
    p, q := FilterInOrder(StoreEach(jar, cookies, now, rules), Live(now), p, q);
  }

  lemma LastSetStandsLast(jar: Jar, cookies: seq<Cookie>, now: nat, rules: Rules)
    requires cookies != [] && Welcome(cookies[|cookies| - 1], rules) && Unexpired(cookies[|cookies| - 1], now)
    ensures var r := Stored(jar, cookies, now, rules); r != [] && Came(cookies[|cookies| - 1], r[|r| - 1], now)
  {
    var n := |cookies| - 1;
    var before := StoreEach(jar, cookies[..n], now, rules);
    assert StoreEach(jar, cookies, now, rules) == StoreOne(before, cookies[n], now, rules);
    hide StoreEach;
    hide StoreOne;
    hide Welcome;
    var front, d := OneSetStandsLast(before, cookies[n], now, rules);
    assert Live(now)(d);
    hide Came;
    EndKept(front, d, Live(now));
  }

  lemma OneSetStandsLast(jar: Jar, c: Cookie, now: nat, rules: Rules) returns (front: Jar, d: Cookie)
    requires Welcome(c, rules) && Unexpired(c, now)
    ensures StoreOne(jar, c, now, rules) == front + [d] && Came(c, d, now)
  {
    PreparedExactly(c, now, rules);
    hide Welcome;
    hide Prepared;
    hide Key;
    var p := Prepared(c, now, rules).value;
    front, d := Filter(jar, OtherKey(Key(p))), Inherited(AsMap(jar), p);
    hide Filter;
    hide AsMap;
  }

  lemma EndKept(front: Jar, d: Cookie, keep: Cookie -> bool)
    requires keep(d)
    ensures Filter(front + [d], keep) == Filter(front, keep) + [d]
  {
    assert (front + [d])[..|front|] == front;
  }

  // --- after a save by hand --------------------------------------------------------------------

  /** The cookies a save replaces, for the id edited and the key it now has. */
  predicate Ousted(c: Cookie, id: string, key: string) {
    c.id == id || Key(c) == key
  }

  /** The creation time a saved cookie gets: its own, else that of the first one it replaces
      that has one, else the present. */
  ghost predicate Dated(jar: Jar, c: Cookie, id: string, now: nat, created: nat) {
    if c.createdAt != 0 then created == c.createdAt
    else if forall i :: 0 <= i < |jar| && Ousted(jar[i], id, Key(c)) ==> jar[i].createdAt == 0 then created == now
    else created != 0 &&
         exists i :: 0 <= i < |jar| && Ousted(jar[i], id, Key(c)) && jar[i].createdAt == created &&
                     forall j :: 0 <= j < i && Ousted(jar[j], id, Key(c)) ==> jar[j].createdAt == 0
  }

  lemma KeptIsDated(jar: Jar, c: Cookie, id: string, now: nat)
    ensures Kept(jar, c, id, now) == c.(updatedAt := now, createdAt := Kept(jar, c, id, now).createdAt)
    ensures Dated(jar, c, id, now, Kept(jar, c, id, now).createdAt)
  {
    FirstCreatedIs(jar, id, Key(c));
    hide FirstCreated;
    hide Key;
    assert forall i :: 0 <= i < |jar| ==> jar[i] in jar;
    assert forall x :: Replaces(x, id, Key(c)) == Ousted(x, id, Key(c));
  }

  /** A save is refused exactly when the cookie may not be stored; else the jar holds what
      it held, without the cookies replaced, and the cookie as the form gave it. */
  lemma SavedExactly(jar: Jar, c: Cookie, id: string, now: nat, rules: Rules, d: Cookie)
    requires DistinctKeys(jar)
    ensures Saved(jar, c, id, now, rules).Some? <==> Storable(c, rules)
    ensures Storable(c, rules) ==> var r := Saved(jar, c, id, now, rules).value;
            d in r <==>
              && Unexpired(d, now)
              && ((d in jar && !Ousted(d, id, Key(c))) ||
                  (d == c.(updatedAt := now, createdAt := d.createdAt) && Dated(jar, c, id, now, d.createdAt)))
  {
    assert Storable(c, rules) ==> PrefixValid(c);
    hide Storable;
    hide PrefixValid;
    KeptIsDated(jar, c, id, now);
    DatedOnce(jar, c, id, now, d.createdAt, Kept(jar, c, id, now).createdAt);
    var kept := Kept(jar, c, id, now);
    assert Key(kept) == Key(c);
    InFilter(jar, NotReplaced(id, Key(c)));
    InFilter(Replace(jar, kept, id), Live(now));
    hide Kept;
    hide Dated;
    hide Filter;
    hide Key;
    hide DistinctKeys;
  }

  lemma DatedOnce(jar: Jar, c: Cookie, id: string, now: nat, x: nat, y: nat)
    requires Dated(jar, c, id, now, y)
    ensures Dated(jar, c, id, now, x) <==> x == y
  {
    hide Ousted;
    hide Key;
    if c.createdAt == 0 && Dated(jar, c, id, now, x) &&
       !(forall i :: 0 <= i < |jar| && Ousted(jar[i], id, Key(c)) ==> jar[i].createdAt == 0) {
      var i :| 0 <= i < |jar| && Ousted(jar[i], id, Key(c)) && jar[i].createdAt == x &&
               forall j :: 0 <= j < i && Ousted(jar[j], id, Key(c)) ==> jar[j].createdAt == 0;
      var k :| 0 <= k < |jar| && Ousted(jar[k], id, Key(c)) && jar[k].createdAt == y &&
               forall j :: 0 <= j < k && Ousted(jar[j], id, Key(c)) ==> jar[j].createdAt == 0;
      assert i == k;
    }
  }

  // --- after a deletion ------------------------------------------------------------------------

  lemma DeletedExactly(jar: Jar, id: string, domain: string, now: nat, rules: Rules, d: Cookie)
    ensures d in Apply(jar, DeleteById(id), now, rules) <==> d in jar && d.id != id
    ensures d in Apply(jar, ClearDomain(domain), now, rules) <==>
            d in jar && (NormalizeDomain(domain) == [] || NormalizeDomain(d.domain) != NormalizeDomain(domain))
    ensures Apply(jar, ClearAll, now, rules) == []
  {
    InFilter(jar, NotId(id));
    InFilter(jar, NotDomain(NormalizeDomain(domain)));
    hide Filter;
    hide NormalizeDomain;
  }

  // --- after a script --------------------------------------------------------------------------

  predicate Left(c: Cookie, k: string, now: nat, rules: Rules) {
    Bears(c, k, rules) && Unexpired(c, now)
  }

  predicate LastLeft(runtime: seq<Cookie>, i: nat, k: string, now: nat, rules: Rules) {
    i < |runtime| && Left(runtime[i], k, now, rules) && forall j :: i < j < |runtime| ==> !Left(runtime[j], k, now, rules)
  }

  lemma CollectOneExactly(r: Runtime, c: Cookie, now: nat, rules: Rules, k: string)
    ensures Lookup(CollectOne(r, c, now, rules).byKey, k) ==
            if Left(c, k, now, rules) then Some(Labelled(Rooted(c))) else Lookup(r.byKey, k)
  {
    RuntimeExactly(c, now, rules);
    hide Welcome;
    hide PreparedRuntime;
    hide Unexpired;
    assert Key(Labelled(Rooted(c))) == Key(Rooted(c));
    hide Key;
  }

  lemma {:induction false} NoneLeft(runtime: seq<Cookie>, now: nat, rules: Rules, k: string)
    requires forall c <- runtime :: !Left(c, k, now, rules)
    ensures k !in Collect(runtime, now, rules).byKey
  {
    hide Left;
    if runtime != [] {
      var n := |runtime| - 1;
      assert forall c <- runtime[..n] :: c in runtime;
      NoneLeft(runtime[..n], now, rules, k);
      CollectOneExactly(Collect(runtime[..n], now, rules), runtime[n], now, rules, k);
      hide CollectOne;
    }
  }

  lemma {:induction false} LastIsLeft(runtime: seq<Cookie>, now: nat, rules: Rules, k: string, i: nat)
    requires LastLeft(runtime, i, k, now, rules)
    ensures Lookup(Collect(runtime, now, rules).byKey, k) == Some(Labelled(Rooted(runtime[i])))
    decreases |runtime|
  {
    hide Left;
    hide Labelled;
    var n := |runtime| - 1;
    CollectOneExactly(Collect(runtime[..n], now, rules), runtime[n], now, rules, k);
    hide CollectOne;
    if i < n {
      LastIsLeft(runtime[..n], now, rules, k, i);
    }
  }

  /** Under a key the script leaves a cookie for, the jar then holds the last of them. */
  lemma LeftIsHeld(current: Jar, initial: seq<Cookie>, runtime: seq<Cookie>, now: nat, rules: Rules, k: string, i: nat, d: Cookie)
    requires DistinctKeys(current) && LastLeft(runtime, i, k, now, rules) && Key(d) == k
    ensures d in Merged(current, initial, runtime, now, rules) <==> d == Labelled(Rooted(runtime[i]))
  {
    MergeRule(current, initial, runtime, now, rules);
    HeldExactly(Merged(current, initial, runtime, now, rules), d);
    LastIsLeft(runtime, now, rules, k, i);
    hide Merged;
    hide AsMap;
    hide Collect;
    hide InitialKeys;
    hide DistinctKeys;
    hide Labelled;
    hide LastLeft;
    hide Key;
  }

  /** Under any other key it holds what it held, unless the script started with a cookie of
      that key. */
  lemma UnleftExactly(current: Jar, initial: seq<Cookie>, runtime: seq<Cookie>, now: nat, rules: Rules, d: Cookie)
    requires DistinctKeys(current) && forall c <- runtime :: !Left(c, Key(d), now, rules)
    ensures d in Merged(current, initial, runtime, now, rules) <==>
            d in current && forall c <- initial :: c.name == [] || c.domain == [] || Key(c) != Key(d)
  {
    MergeRule(current, initial, runtime, now, rules);
    HeldExactly(Merged(current, initial, runtime, now, rules), d);
    HeldExactly(current, d);
    NoneLeft(runtime, now, rules, Key(d));
    assert Key(d) !in InitialKeys(initial) <==> forall c <- initial :: c.name == [] || c.domain == [] || Key(c) != Key(d);
    hide Merged;
    hide AsMap;
    hide Collect;
    hide InitialKeys;
    hide DistinctKeys;
    hide Left;
    hide Key;
  }

  // --- over every run --------------------------------------------------------------------------

  /** Whatever the operations, nothing gets into an empty jar that is not welcome there: no
      cookie of a public suffix, no shared cookie of an address, none that breaks what its
      name promises. */
  lemma RunHoldsTheWelcome(ops: seq<(CookieStore.Op, nat)>, rules: Rules)
    ensures forall d <- CookieStore.Run([], ops, rules) :: Welcome(d, rules)
  {
    RunKeepsStorable([], ops, rules);
    hide CookieStore.Run;
    forall d <- CookieStore.Run([], ops, rules)
      ensures Welcome(d, rules)
    {
      assert Storable(d, rules);
      StorableIsWelcome(d, rules);
    }
  }

  lemma StorableIsWelcome(c: Cookie, rules: Rules)
    requires Storable(c, rules)
    ensures Welcome(c, rules)
  {
    assert c.name != [] && c.domain != [] && c.path != [];
    assert c.(id := c.id) == c;
    WelcomeIsStorable(c, c.id, rules);
    hide Storable;
    hide Welcome;
  }

  // --- with a request --------------------------------------------------------------------------

  /** Exactly the cookies of the jar go out that have not expired, may be stored, need no
      better origin, and match the request's host and path. */
  lemma SentExactly(jar: seq<Cookie>, target: Target, now: nat, rules: Rules, c: Cookie)
    ensures c in ForURL(jar, target, now, rules) <==>
            && c in jar && Unexpired(c, now) && c.name != [] && Storable(c, rules) && (c.secure ==> target.trustworthy)
            && DomainMatch(c, target.host) && PathMatch(c.path, target.path)
  {
    SentCookies(jar, target, now, rules, c);
    hide ForURL;
    hide Storable;
    hide DomainMatch;
    hide PathMatch;
  }

  /** For a host that is no address and a path without two slashes at its end these are the
      cookies section 5.4 of RFC 6265 sends. */
  lemma SentIsRfc(jar: seq<Cookie>, target: Target, now: nat, rules: Rules, c: Cookie)
    requires c in jar && Welcome(c, rules) && Absolute(c.path) && !EndsInTwoSlashes(c.path) && Absolute(target.path)
    requires !rules.isIP(Lower(Trim(target.host)))
    ensures var host, domain := Lower(Trim(target.host)), TrimPrefixDot(Lower(c.domain));
            c in ForURL(jar, target, now, rules) <==>
            && Unexpired(c, now) && (c.secure ==> target.trustworthy)
            && (if c.hostOnly then host == domain else RfcDomainMatch(host, domain, rules))
            && RfcPathMatch(c.path, target.path)
  {
    SentExactly(jar, target, now, rules, c);
    PathMatchIsRfc(c.path);
    if !c.hostOnly {
      DomainMatchIsRfc(c, target.host, rules);
    }
    WelcomeIsStorable(c, c.id, rules);
    assert c.name != [];
    hide ForURL;
    hide Storable;
    hide Welcome;
    hide PathMatch;
    hide RfcPathMatch;
    hide Trim;
    hide Lower;
  }
}
