// The cookie jar: a list updated in place that behaves as a map from keys to cookies, and
// the merge of the jar a script leaves behind.

module CookieStore {
  import opened Cookies
  import opened Ordering
  import opened Text

  type Jar = seq<Cookie>

  /** The jar read as a map; the last cookie of a key counts. */
  function AsMap(jar: Jar): map<string, Cookie> {
    if jar == [] then map[] else AsMap(jar[..|jar| - 1])[Key(jar[|jar| - 1]) := jar[|jar| - 1]]
  }

  ghost predicate DistinctKeys(jar: Jar) {
    forall i, j :: 0 <= i < j < |jar| ==> Key(jar[i]) != Key(jar[j])
  }

  // --- filtering -----------------------------------------------------------------------------------

  function Filter(jar: Jar, keep: Cookie -> bool): Jar {
    if jar == [] then []
    else Filter(jar[..|jar| - 1], keep) + if keep(jar[|jar| - 1]) then [jar[|jar| - 1]] else []
  }

  function FilterMap(m: map<string, Cookie>, keep: Cookie -> bool): map<string, Cookie> {
    map k | k in m && keep(m[k]) :: m[k]
  }

  lemma {:induction false} InJar(jar: Jar)
    ensures forall k :: k in AsMap(jar) ==> AsMap(jar)[k] in jar && Key(AsMap(jar)[k]) == k
    ensures forall c <- jar :: Key(c) in AsMap(jar)
    ensures DistinctKeys(jar) ==> forall c <- jar :: AsMap(jar)[Key(c)] == c
  {
    if jar != [] {
      var n := |jar| - 1;
      InJar(jar[..n]);
      assert jar == jar[..n] + [jar[n]];
    }
  }

  lemma {:induction false} InFilter(jar: Jar, keep: Cookie -> bool)
    ensures forall c :: c in Filter(jar, keep) <==> c in jar && keep(c)
    ensures DistinctKeys(jar) ==> DistinctKeys(Filter(jar, keep))
  {
    if jar != [] {
      var n := |jar| - 1;
      InFilter(jar[..n], keep);
      assert jar == jar[..n] + [jar[n]];
      if DistinctKeys(jar) {
        assert DistinctKeys(jar[..n]);
        var f := Filter(jar[..n], keep);
        forall c <- f
          ensures Key(c) != Key(jar[n])
        {
          var i :| 0 <= i < n && jar[i] == c;
        }
      }
    }
  }

  lemma FilterMapPut(m: map<string, Cookie>, k: string, c: Cookie, keep: Cookie -> bool)
    requires k !in m
    ensures FilterMap(m[k := c], keep) == if keep(c) then FilterMap(m, keep)[k := c] else FilterMap(m, keep)
  {
  }

  lemma LastKeyIsNew(jar: Jar)
    requires DistinctKeys(jar) && jar != []
    ensures Key(jar[|jar| - 1]) !in AsMap(jar[..|jar| - 1])
  {
    var n := |jar| - 1;
    InJar(jar[..n]);
    forall c <- jar[..n]
      ensures Key(c) != Key(jar[n])
    {
    }
    hide Key;
    hide AsMap;
  }

  /** Filtering the list filters the map. */
  lemma {:induction false} FilterAsMap(jar: Jar, keep: Cookie -> bool)
    requires DistinctKeys(jar)
    ensures AsMap(Filter(jar, keep)) == FilterMap(AsMap(jar), keep)
  {
    if jar == [] {
      assert FilterMap(map[], keep) == map[];
    } else {
      var n := |jar| - 1;
      FilterAsMap(jar[..n], keep);
      LastKeyIsNew(jar);
      FilterMapPut(AsMap(jar[..n]), Key(jar[n]), jar[n], keep);
      hide Key;
      hide DistinctKeys;
      hide FilterMap;
      var f := Filter(jar[..n], keep);
      if keep(jar[n]) {
        AppendAsMap(f, jar[n]);
      } else {
        assert f + [] == f;
      }
    }
  }

  lemma AppendAsMap(jar: Jar, c: Cookie)
    ensures AsMap(jar + [c]) == AsMap(jar)[Key(c) := c]
  {
    assert (jar + [c])[..|jar|] == jar;
  }

  // --- storing response cookies ----------------------------------------------------------------------

  /** A response cookie as it enters the jar, or none if it may not. The id stands for the
      digest of the key. */
  function Prepared(c: Cookie, now: nat, rules: Rules): Option<Cookie> {
    if c.name == [] || c.domain == [] then None
    else
      var rooted := if c.path == [] then c.(path := "/") else c;
      var named := if rooted.id == [] then rooted.(id := Key(rooted)) else rooted;
      if !Storable(named, rules) then None
      else Some(named.(updatedAt := now, createdAt := if named.createdAt == 0 then now else named.createdAt))
  }

  function OtherKey(key: string): Cookie -> bool {
    (c: Cookie) => Key(c) != key
  }

  /** The creation time a new cookie takes over from one it replaces. */
  function Inherited(m: map<string, Cookie>, c: Cookie): Cookie {
    if Key(c) in m && m[Key(c)].createdAt != 0 then c.(createdAt := m[Key(c)].createdAt) else c
  }

  function Put(jar: Jar, c: Cookie, now: nat): Jar {
    var others := Filter(jar, OtherKey(Key(c)));
    if Expired(c, now) then others else others + [Inherited(AsMap(jar), c)]
  }

  function StoreOne(jar: Jar, c: Cookie, now: nat, rules: Rules): Jar {
    var p := Prepared(c, now, rules);
    if p.None? then jar else Put(jar, p.value, now)
  }

  function StoreEach(jar: Jar, cookies: seq<Cookie>, now: nat, rules: Rules): Jar {
    if cookies == [] then jar
    else StoreOne(StoreEach(jar, cookies[..|cookies| - 1], now, rules), cookies[|cookies| - 1], now, rules)
  }

  function Live(now: nat): Cookie -> bool {
    (c: Cookie) => !Expired(c, now)
  }

  function Stored(jar: Jar, cookies: seq<Cookie>, now: nat, rules: Rules): Jar {
    Filter(StoreEach(jar, cookies, now, rules), Live(now))
  }

  /** The storage model of section 5.3 of RFC 6265: set or delete by key, keeping the
      creation time. */
  function SetCookie(m: map<string, Cookie>, c: Cookie, now: nat, rules: Rules): map<string, Cookie> {
    var p := Prepared(c, now, rules);
    if p.None? then m else SetOrDelete(m, p.value, now)
  }

  function SetOrDelete(m: map<string, Cookie>, c: Cookie, now: nat): map<string, Cookie> {
    if Expired(c, now) then m - {Key(c)} else m[Key(c) := Inherited(m, c)]
  }

  function SetCookies(m: map<string, Cookie>, cookies: seq<Cookie>, now: nat, rules: Rules): map<string, Cookie> {
    if cookies == [] then m
    else SetCookie(SetCookies(m, cookies[..|cookies| - 1], now, rules), cookies[|cookies| - 1], now, rules)
  }

  lemma FilterKey(jar: Jar, key: string)
    requires DistinctKeys(jar)
    ensures AsMap(Filter(jar, OtherKey(key))) == AsMap(jar) - {key}
  {
    FilterAsMap(jar, OtherKey(key));
    InJar(jar);
  }

  lemma AppendKeepsDistinct(jar: Jar, key: string, c: Cookie)
    requires DistinctKeys(jar) && Key(c) == key
    ensures DistinctKeys(Filter(jar, OtherKey(key)) + [c])
  {
    InFilter(jar, OtherKey(key));
    var f := Filter(jar, OtherKey(key));
    forall i | 0 <= i < |f|
      ensures Key(f[i]) != key
    {
      assert f[i] in f;
    }
  }

  lemma RemoveThenPut(m: map<string, Cookie>, k: string, c: Cookie)
    ensures (m - {k})[k := c] == m[k := c]
  {
  }

  lemma PutIsSet(jar: Jar, c: Cookie, now: nat)
    requires DistinctKeys(jar)
    ensures DistinctKeys(Put(jar, c, now))
    ensures AsMap(Put(jar, c, now)) == SetOrDelete(AsMap(jar), c, now)
  {
    var kept := Inherited(AsMap(jar), c);
    assert Key(kept) == Key(c);
    FilterKey(jar, Key(c));
    InFilter(jar, OtherKey(Key(c)));
    AppendKeepsDistinct(jar, Key(c), kept);
    AppendAsMap(Filter(jar, OtherKey(Key(c))), kept);
    RemoveThenPut(AsMap(jar), Key(c), kept);
    hide Key;
    hide Filter;
    hide AsMap;
    hide DistinctKeys;
    hide Inherited;
    hide OtherKey;
  }

  lemma StoreOneIsSet(jar: Jar, c: Cookie, now: nat, rules: Rules)
    requires DistinctKeys(jar)
    ensures DistinctKeys(StoreOne(jar, c, now, rules))
    ensures AsMap(StoreOne(jar, c, now, rules)) == SetCookie(AsMap(jar), c, now, rules)
  {
    hide Prepared;
    hide Put;
    hide SetOrDelete;
    hide DistinctKeys;
    if Prepared(c, now, rules).Some? {
      PutIsSet(jar, Prepared(c, now, rules).value, now);
    }
  }

  lemma {:induction false} StoreEachIsFold(jar: Jar, cookies: seq<Cookie>, now: nat, rules: Rules)
    requires DistinctKeys(jar)
    ensures DistinctKeys(StoreEach(jar, cookies, now, rules))
    ensures AsMap(StoreEach(jar, cookies, now, rules)) == SetCookies(AsMap(jar), cookies, now, rules)
  {
    if cookies != [] {
      var n := |cookies| - 1;
      StoreEachIsFold(jar, cookies[..n], now, rules);
      StoreOneIsSet(StoreEach(jar, cookies[..n], now, rules), cookies[n], now, rules);
      hide StoreOne;
      hide SetCookie;
    }
  }

  /** Storing a response's cookies is folding set and delete by key over the jar as a map,
      then dropping what has expired. */
  lemma StoredIsFold(jar: Jar, cookies: seq<Cookie>, now: nat, rules: Rules)
    requires DistinctKeys(jar)
    ensures DistinctKeys(Stored(jar, cookies, now, rules))
    ensures AsMap(Stored(jar, cookies, now, rules)) == FilterMap(SetCookies(AsMap(jar), cookies, now, rules), Live(now))
  {
    StoreEachIsFold(jar, cookies, now, rules);
    FilterAsMap(StoreEach(jar, cookies, now, rules), Live(now));
    InFilter(StoreEach(jar, cookies, now, rules), Live(now));
  }

  // --- saving by hand ----------------------------------------------------------------------------------

  /** A cookie the user edits replaces the one it was and any other with its new key. */
  predicate Replaces(c: Cookie, id: string, key: string) {
    c.id == id || Key(c) == key
  }

  function NotReplaced(id: string, key: string): Cookie -> bool {
    (c: Cookie) => !Replaces(c, id, key)
  }

  /** The first replaced cookie's creation time, if any is set. */
  function FirstCreated(jar: Jar, id: string, key: string): nat {
    if jar == [] then 0
    else
      var n := |jar| - 1;
      var first := FirstCreated(jar[..n], id, key);
      if first != 0 then first else if Replaces(jar[n], id, key) then jar[n].createdAt else 0
  }

  function Kept(jar: Jar, c: Cookie, id: string, now: nat): Cookie {
    var first := FirstCreated(jar, id, Key(c));
    c.(updatedAt := now, createdAt := if c.createdAt != 0 then c.createdAt else if first != 0 then first else now)
  }

  function Replace(jar: Jar, c: Cookie, id: string): Jar {
    Filter(jar, NotReplaced(id, Key(c))) + [c]
  }

  function Saved(jar: Jar, c: Cookie, id: string, now: nat, rules: Rules): Option<Jar> {
    if !PrefixValid(c) || !Storable(c, rules) then None
    else Some(Filter(Replace(jar, Kept(jar, c, id, now), id), Live(now)))
  }

  lemma ReplaceIsSet(jar: Jar, c: Cookie, id: string)
    requires DistinctKeys(jar)
    ensures DistinctKeys(Replace(jar, c, id))
    ensures AsMap(Replace(jar, c, id)) == FilterMap(AsMap(jar), NotReplaced(id, Key(c)))[Key(c) := c]
  {
    var keep := NotReplaced(id, Key(c));
    InFilter(jar, keep);
    FilterAsMap(jar, keep);
    AppendAsMap(Filter(jar, keep), c);
    hide AsMap;
    hide FilterMap;
    var others := Filter(jar, keep);
    hide Filter;
    forall i | 0 <= i < |others|
      ensures Key(others[i]) != Key(c)
    {
      assert others[i] in others;
    }
  }

  /** Saving is replacing in the jar as a map: the cookie it was and any other with its key
      go, it comes in under its key, and what has expired goes. */
  lemma SavedIsSet(jar: Jar, c: Cookie, id: string, now: nat, rules: Rules)
    requires DistinctKeys(jar) && Saved(jar, c, id, now, rules).Some?
    ensures var r := Saved(jar, c, id, now, rules).value;
            && DistinctKeys(r)
            && AsMap(r) == FilterMap(FilterMap(AsMap(jar), NotReplaced(id, Key(c)))[Key(c) := Kept(jar, c, id, now)], Live(now))
  {
    var kept := Kept(jar, c, id, now);
    assert Key(kept) == Key(c);
    assert Saved(jar, c, id, now, rules).value == Filter(Replace(jar, kept, id), Live(now));
    hide Saved;
    hide Kept;
    hide Key;
    hide Replace;
    ReplaceIsSet(jar, kept, id);
    hide DistinctKeys;
    InFilter(Replace(jar, kept, id), Live(now));
    FilterAsMap(Replace(jar, kept, id), Live(now));
    hide Filter;
    hide FilterMap;
    hide AsMap;
  }

  /** The creation time taken over is that of the first replaced cookie that has one. */
  lemma {:induction false} FirstCreatedIs(jar: Jar, id: string, key: string)
    ensures var first := FirstCreated(jar, id, key);
            if first == 0 then forall c <- jar :: Replaces(c, id, key) ==> c.createdAt == 0
            else exists i :: 0 <= i < |jar| && Replaces(jar[i], id, key) && jar[i].createdAt == first &&
                             forall j :: 0 <= j < i ==> Replaces(jar[j], id, key) ==> jar[j].createdAt == 0
  {
    if jar != [] {
      var n := |jar| - 1;
      FirstCreatedIs(jar[..n], id, key);
      assert jar == jar[..n] + [jar[n]];
      if FirstCreated(jar[..n], id, key) != 0 {
        var i :| 0 <= i < n && Replaces(jar[..n][i], id, key) && jar[..n][i].createdAt == FirstCreated(jar[..n], id, key) &&
                 forall j :: 0 <= j < i ==> Replaces(jar[..n][j], id, key) ==> jar[..n][j].createdAt == 0;
        assert jar[i] == jar[..n][i];
        assert forall j :: 0 <= j < i ==> jar[j] == jar[..n][j];
      } else {
        assert forall j :: 0 <= j < n ==> jar[j] in jar[..n];
      }
    }
  }

  // --- deleting ----------------------------------------------------------------------------------------

  function NotId(id: string): Cookie -> bool {
    (c: Cookie) => c.id != id
  }

  function NotDomain(domain: string): Cookie -> bool {
    (c: Cookie) => NormalizeDomain(c.domain) != domain
  }

  // --- the jar a script leaves behind --------------------------------------------------------------------

  function InitialKeys(initial: seq<Cookie>): set<string> {
    set c <- initial | c.name != [] && c.domain != [] :: Key(c)
  }

  function PreparedRuntime(c: Cookie, now: nat, rules: Rules): Option<Cookie> {
    if c.name == [] || c.domain == [] || Expired(c, now) then None
    else
      var rooted := if c.path == [] then c.(path := "/") else c;
      var named := if rooted.id == [] then rooted.(id := Key(rooted)) else rooted;
      if Storable(named, rules) then Some(named) else None
  }

  /** The runtime cookies by key, and the keys in first-seen order. */
  datatype Runtime = Runtime(byKey: map<string, Cookie>, keys: seq<string>)

  function CollectOne(r: Runtime, c: Cookie, now: nat, rules: Rules): Runtime {
    var p := PreparedRuntime(c, now, rules);
    if p.None? then r
    else
      var key := Key(p.value);
      Runtime(r.byKey[key := p.value], if key in r.byKey then r.keys else r.keys + [key])
  }

  function Collect(runtime: seq<Cookie>, now: nat, rules: Rules): Runtime {
    if runtime == [] then Runtime(map[], [])
    else CollectOne(Collect(runtime[..|runtime| - 1], now, rules), runtime[|runtime| - 1], now, rules)
  }

  ghost predicate Indexed(r: Runtime) {
    && Distinct(r.keys)
    && (forall k :: k in r.keys <==> k in r.byKey)
    && (forall k <- r.byKey :: Key(r.byKey[k]) == k)
  }

  lemma {:induction false} CollectIndexed(runtime: seq<Cookie>, now: nat, rules: Rules)
    ensures Indexed(Collect(runtime, now, rules))
  {
    if runtime != [] {
      CollectIndexed(runtime[..|runtime| - 1], now, rules);
    }
  }

  function Untouched(r: Runtime, initialKeys: set<string>): Cookie -> bool {
    (c: Cookie) => Key(c) !in r.byKey && Key(c) !in initialKeys
  }

  function Values(r: Runtime): (s: seq<Cookie>)
    requires forall k <- r.keys :: k in r.byKey
    ensures |s| == |r.keys|
  {
    seq(|r.keys|, i requires 0 <= i < |r.keys| => r.byKey[r.keys[i]])
  }

  function Merged(current: Jar, initial: seq<Cookie>, runtime: seq<Cookie>, now: nat, rules: Rules): Jar {
    var r := Collect(runtime, now, rules);
    CollectIndexed(runtime, now, rules);
    Filter(current, Untouched(r, InitialKeys(initial))) + Values(r)
  }

  lemma {:induction false} AppendMap(jar: Jar, more: Jar)
    ensures AsMap(jar + more) == AsMap(jar) + AsMap(more)
  {
    if more == [] {
      assert jar + more == jar;
    } else {
      var n := |more| - 1;
      assert (jar + more)[..|jar| + n] == jar + more[..n];
      AppendMap(jar, more[..n]);
    }
  }

  lemma ValuesAsMap(r: Runtime)
    requires Indexed(r)
    ensures AsMap(Values(r)) == r.byKey && DistinctKeys(Values(r))
  {
    var s := Values(r);
    forall i | 0 <= i < |s|
      ensures Key(s[i]) == r.keys[i]
    {
      assert r.keys[i] in r.byKey;
    }
    InJar(s);
    forall k
      ensures k in AsMap(s) <==> k in r.byKey
      ensures k in AsMap(s) ==> AsMap(s)[k] == r.byKey[k]
    {
      if k in r.byKey {
        var i :| 0 <= i < |r.keys| && r.keys[i] == k;
        assert s[i] in s;
      }
    }
  }

  /** Per key: the script's value if it has one, else nothing if the script started with
      one, else what the jar has now. */
  lemma MergeRule(current: Jar, initial: seq<Cookie>, runtime: seq<Cookie>, now: nat, rules: Rules)
    requires DistinctKeys(current)
    ensures var m, r := AsMap(Merged(current, initial, runtime, now, rules)), Collect(runtime, now, rules).byKey;
            && DistinctKeys(Merged(current, initial, runtime, now, rules))
            && forall k ::
                 && (k in m <==> k in r || (k !in InitialKeys(initial) && k in AsMap(current)))
                 && (k in m ==> m[k] == if k in r then r[k] else AsMap(current)[k])
  {
    var r := Collect(runtime, now, rules);
    var others := Filter(current, Untouched(r, InitialKeys(initial)));
    CollectIndexed(runtime, now, rules);
    ValuesAsMap(r);
    InFilter(current, Untouched(r, InitialKeys(initial)));
    FilterAsMap(current, Untouched(r, InitialKeys(initial)));
    InJar(current);
    AppendMap(others, Values(r));
    InJar(others);
    InJar(Values(r));
    hide Collect;
    hide Filter;
    hide AsMap;
    hide Key;
    hide InitialKeys;
    forall i, j | 0 <= i < |others| && 0 <= j < |Values(r)|
      ensures Key(others[i]) != Key(Values(r)[j])
    {
      assert others[i] in others && Values(r)[j] in Values(r);
    }
  }

  /** A cookie someone else stored during the run under a new key survives. */
  lemma OthersSurvive(current: Jar, initial: seq<Cookie>, runtime: seq<Cookie>, now: nat, rules: Rules, c: Cookie)
    requires DistinctKeys(current) && c in current
    requires Key(c) !in InitialKeys(initial) && Key(c) !in Collect(runtime, now, rules).byKey
    ensures c in Merged(current, initial, runtime, now, rules)
  {
    InFilter(current, Untouched(Collect(runtime, now, rules), InitialKeys(initial)));
  }

  function Lookup(m: map<string, Cookie>, k: string): Option<Cookie> {
    if k in m then Some(m[k]) else None
  }

  /** Under a key the script started with the jar keeps what it has by then, or has lost,
      exactly when the script ends with the same. */
  lemma ChangesUnderOldKeys(current: Jar, initial: seq<Cookie>, runtime: seq<Cookie>, now: nat, rules: Rules, k: string)
    requires DistinctKeys(current) && k in InitialKeys(initial)
    ensures var m, r := AsMap(Merged(current, initial, runtime, now, rules)), Collect(runtime, now, rules).byKey;
            Lookup(m, k) == Lookup(AsMap(current), k) <==> Lookup(r, k) == Lookup(AsMap(current), k)
  {
    MergeRule(current, initial, runtime, now, rules);
  }

  /** A script that leaves its cookies alone still puts back the values it started with,
      over whatever the jar holds by then. */
  lemma IdleScriptReverts(current: Jar, initial: seq<Cookie>, now: nat, rules: Rules, k: string)
    requires DistinctKeys(current) && k in Collect(initial, now, rules).byKey
    ensures var m := AsMap(Merged(current, initial, initial, now, rules));
            k in m && m[k] == Collect(initial, now, rules).byKey[k]
  {
    MergeRule(current, initial, initial, now, rules);
  }

  // --- every run -------------------------------------------------------------------------------------

  datatype Op =
    | StoreResponse(cookies: seq<Cookie>)
    | Save(cookie: Cookie, id: string)
    | DeleteById(id: string)
    | ClearDomain(domain: string)
    | ClearAll
    | MergeScript(initial: seq<Cookie>, runtime: seq<Cookie>)

  function Apply(jar: Jar, op: Op, now: nat, rules: Rules): Jar {
    match op
    case StoreResponse(cookies) => Stored(jar, cookies, now, rules)
    case Save(cookie, id) =>
      var r := Saved(jar, cookie, id, now, rules);
      if r.Some? then r.value else jar
    case DeleteById(id) => Filter(jar, NotId(id))
    case ClearDomain(domain) =>
      if NormalizeDomain(domain) == [] then jar else Filter(jar, NotDomain(NormalizeDomain(domain)))
    case ClearAll => []
    case MergeScript(initial, runtime) => Merged(jar, initial, runtime, now, rules)
  }

  /** Each operation comes with its time. */
  function Run(jar: Jar, ops: seq<(Op, nat)>, rules: Rules): Jar {
    if ops == [] then jar
    else Apply(Run(jar, ops[..|ops| - 1], rules), ops[|ops| - 1].0, ops[|ops| - 1].1, rules)
  }

  lemma {:induction false} RunKeepsDistinct(jar: Jar, ops: seq<(Op, nat)>, rules: Rules)
    requires DistinctKeys(jar)
    ensures DistinctKeys(Run(jar, ops, rules))
  {
    if ops != [] {
      var n := |ops| - 1;
      RunKeepsDistinct(jar, ops[..n], rules);
      StepKeepsDistinct(Run(jar, ops[..n], rules), ops[n].0, ops[n].1, rules);
      hide Apply;
    }
  }

  lemma StepKeepsDistinct(jar: Jar, op: Op, now: nat, rules: Rules)
    requires DistinctKeys(jar)
    ensures DistinctKeys(Apply(jar, op, now, rules))
  {
    hide DistinctKeys;
    hide Filter;
    match op
    case StoreResponse(cookies) =>
      StoredIsFold(jar, cookies, now, rules);
    case Save(cookie, id) =>
      if Saved(jar, cookie, id, now, rules).Some? {
        SavedIsSet(jar, cookie, id, now, rules);
      }
    case DeleteById(id) =>
      InFilter(jar, NotId(id));
    case ClearDomain(domain) =>
      InFilter(jar, NotDomain(NormalizeDomain(domain)));
    case ClearAll =>
      EmptyIsDistinct();
    case MergeScript(initial, runtime) =>
      MergeRule(jar, initial, runtime, now, rules);
  }

  /** A prepared cookie may be stored, keeps its name, domain and value, and is prepared
      already: preparing it again only moves the time of its update. */
  lemma PreparedOnce(c: Cookie, now: nat, later: nat, rules: Rules)
    requires Prepared(c, now, rules).Some? && now != 0
    ensures var p := Prepared(c, now, rules).value;
            && Storable(p, rules) && p.id != [] && p.createdAt != 0 && p.updatedAt == now
            && p.name == c.name && p.domain == c.domain && p.value == c.value
            && (c.path != [] ==> Key(p) == Key(c))
            && Prepared(p, later, rules) == Some(p.(updatedAt := later))
  {
    hide ValidName;
    hide ValidDomain;
    hide NormalizeDomain;
    hide Trim;
  }

  /** Nothing a domain, an address, a prefix or a path forbids is in the jar. */
  ghost predicate AllStorable(jar: Jar, rules: Rules) {
    forall c <- jar :: Storable(c, rules)
  }

  lemma {:induction false} StoreEachStorable(jar: Jar, cookies: seq<Cookie>, now: nat, rules: Rules)
    requires AllStorable(jar, rules)
    ensures AllStorable(StoreEach(jar, cookies, now, rules), rules)
  {
    if cookies != [] {
      var n := |cookies| - 1;
      var before := StoreEach(jar, cookies[..n], now, rules);
      StoreEachStorable(jar, cookies[..n], now, rules);
      StoreOneStorable(before, cookies[n], now, rules);
      hide StoreOne;
      hide Storable;
    }
  }

  lemma StorableDates(c: Cookie, d: Cookie, rules: Rules)
    requires d == c.(createdAt := d.createdAt, updatedAt := d.updatedAt)
    ensures Storable(d, rules) == Storable(c, rules)
  {
  }

  lemma StoreOneStorable(jar: Jar, c: Cookie, now: nat, rules: Rules)
    requires AllStorable(jar, rules)
    ensures AllStorable(StoreOne(jar, c, now, rules), rules)
  {
    var p := Prepared(c, now, rules);
    if p.Some? {
      StorableDates(p.value, Inherited(AsMap(jar), p.value), rules);
      PreparedStorable(c, now, rules);
      hide Storable;
      hide Prepared;
      InFilter(jar, OtherKey(Key(p.value)));
      hide Filter;
    }
  }

  lemma PreparedStorable(c: Cookie, now: nat, rules: Rules)
    requires Prepared(c, now, rules).Some?
    ensures Storable(Prepared(c, now, rules).value, rules)
  {
    hide NormalizeDomain;
    hide ValidName;
    hide ValidDomain;
    hide Trim;
  }

  lemma SavedStorable(jar: Jar, c: Cookie, id: string, now: nat, rules: Rules)
    requires AllStorable(jar, rules) && Saved(jar, c, id, now, rules).Some?
    ensures AllStorable(Saved(jar, c, id, now, rules).value, rules)
  {
    StorableDates(c, Kept(jar, c, id, now), rules);
    hide Storable;
    InFilter(jar, NotReplaced(id, Key(Kept(jar, c, id, now))));
    InFilter(Replace(jar, Kept(jar, c, id, now), id), Live(now));
    hide Filter;
    hide Kept;
  }

  lemma {:induction false} CollectStorable(runtime: seq<Cookie>, now: nat, rules: Rules)
    ensures forall k <- Collect(runtime, now, rules).byKey :: Storable(Collect(runtime, now, rules).byKey[k], rules)
  {
    hide Storable;
    if runtime != [] {
      CollectStorable(runtime[..|runtime| - 1], now, rules);
    }
  }

  lemma StepKeepsStorable(jar: Jar, op: Op, now: nat, rules: Rules)
    requires AllStorable(jar, rules)
    ensures AllStorable(Apply(jar, op, now, rules), rules)
  {
    hide Storable;
    hide Filter;
    match op
    case StoreResponse(cookies) =>
      StoreEachStorable(jar, cookies, now, rules);
      InFilter(StoreEach(jar, cookies, now, rules), Live(now));
    case Save(cookie, id) =>
      if Saved(jar, cookie, id, now, rules).Some? {
        SavedStorable(jar, cookie, id, now, rules);
      }
      hide Saved;
    case DeleteById(id) =>
      InFilter(jar, NotId(id));
    case ClearDomain(domain) =>
      InFilter(jar, NotDomain(NormalizeDomain(domain)));
    case ClearAll =>
    case MergeScript(initial, runtime) =>
      MergedStorable(jar, initial, runtime, now, rules);
  }

  lemma MergedStorable(jar: Jar, initial: seq<Cookie>, runtime: seq<Cookie>, now: nat, rules: Rules)
    requires AllStorable(jar, rules)
    ensures AllStorable(Merged(jar, initial, runtime, now, rules), rules)
  {
    var r := Collect(runtime, now, rules);
    CollectIndexed(runtime, now, rules);
    CollectStorable(runtime, now, rules);
    hide Storable;
    hide Collect;
    InFilter(jar, Untouched(r, InitialKeys(initial)));
    hide Filter;
    hide InitialKeys;
    forall c <- Merged(jar, initial, runtime, now, rules)
      ensures Storable(c, rules)
    {
      if c in Values(r) {
        var i :| 0 <= i < |r.keys| && Values(r)[i] == c;
        assert r.keys[i] in r.byKey;
      }
    }
  }

  /** Over every run the jar holds storable cookies only. */
  lemma {:induction false} RunKeepsStorable(jar: Jar, ops: seq<(Op, nat)>, rules: Rules)
    requires AllStorable(jar, rules)
    ensures AllStorable(Run(jar, ops, rules), rules)
  {
    if ops != [] {
      var n := |ops| - 1;
      RunKeepsStorable(jar, ops[..n], rules);
      StepKeepsStorable(Run(jar, ops[..n], rules), ops[n].0, ops[n].1, rules);
      hide Apply;
      hide AllStorable;
    }
  }

  lemma EmptyIsDistinct()
    ensures DistinctKeys([])
  {
  }

  // --- as the source runs it ---------------------------------------------------------------------------

  lemma FilterNext(jar: Jar, i: nat, keep: Cookie -> bool)
    requires i < |jar|
    ensures Filter(jar[..i + 1], keep) == Filter(jar[..i], keep) + if keep(jar[i]) then [jar[i]] else []
  {
    assert jar[..i + 1][..i] == jar[..i];
  }

  lemma AsMapNext(jar: Jar, i: nat)
    requires DistinctKeys(jar) && i < |jar|
    ensures AsMap(jar[..i + 1]) == AsMap(jar[..i])[Key(jar[i]) := jar[i]]
    ensures Key(jar[i]) !in AsMap(jar[..i])
  {
    assert jar[..i + 1][..i] == jar[..i];
    LastKeyIsNew(jar[..i + 1]);
  }

  lemma InheritedNext(jar: Jar, i: nat, c: Cookie)
    requires DistinctKeys(jar) && i < |jar|
    ensures Key(jar[i]) == Key(c) ==> Inherited(AsMap(jar[..i]), c) == c
    ensures Inherited(AsMap(jar[..i + 1]), c) ==
            if Key(jar[i]) == Key(c) && jar[i].createdAt != 0 then c.(createdAt := jar[i].createdAt)
            else Inherited(AsMap(jar[..i]), c)
  {
    AsMapNext(jar, i);
    hide Key;
    hide AsMap;
    hide DistinctKeys;
  }

  lemma FirstCreatedNext(jar: Jar, i: nat, id: string, key: string)
    requires i < |jar|
    ensures var first := FirstCreated(jar[..i], id, key);
            FirstCreated(jar[..i + 1], id, key) ==
            if first == 0 && Replaces(jar[i], id, key) then jar[i].createdAt else first
  {
    assert jar[..i + 1][..i] == jar[..i];
    hide Replaces;
  }

  method Prepare(incoming: Cookie, now: nat, rules: Rules) returns (r: Option<Cookie>)
    ensures r == Prepared(incoming, now, rules)
  {
    hide Storable;
    var cookie := incoming;
    if cookie.name == [] || cookie.domain == [] {
      return None;
    }
    if cookie.path == [] {
      cookie := cookie.(path := "/");
    }
    if cookie.id == [] {
      cookie := cookie.(id := Key(cookie));
    }
    if !Storable(cookie, rules) {
      return None;
    }
    cookie := cookie.(updatedAt := now);
    if cookie.createdAt == 0 {
      cookie := cookie.(createdAt := now);
    }
    return Some(cookie);
  }

  class CookieJar {
    var cookies: Jar

    constructor ()
      ensures cookies == []
    {
      cookies := [];
    }

    method PruneExpired(now: nat)
      modifies this
      ensures cookies == Filter(old(cookies), Live(now))
    {
      var next := [];
      for i := 0 to |cookies|
        invariant cookies == old(cookies) && next == Filter(cookies[..i], Live(now))
      {
        FilterNext(cookies, i, Live(now));
        if !Expired(cookies[i], now) {
          next := next + [cookies[i]];
        }
      }
      assert cookies[..|cookies|] == cookies;
      cookies := next;
    }

    /** Everything but the cookie's key stays; the cookie takes over the creation time of
        the one it displaces and goes to the end, unless it has expired. */
    method PutCookie(prepared: Cookie, now: nat)
      requires DistinctKeys(cookies)
      modifies this
      ensures cookies == Put(old(cookies), prepared, now)
    {
      var cookie := prepared;
      var key := Key(cookie);
      var next := [];
      for i := 0 to |cookies|
        invariant cookies == old(cookies)
        invariant next == Filter(cookies[..i], OtherKey(key))
        invariant cookie == Inherited(AsMap(cookies[..i]), prepared)
      {
        var existing := cookies[i];
        FilterNext(cookies, i, OtherKey(key));
        InheritedNext(cookies, i, prepared);
        hide AsMap;
        hide Filter;
        hide DistinctKeys;
        hide Inherited;
        hide Key;
        if Key(existing) == key {
          if existing.createdAt != 0 {
            cookie := cookie.(createdAt := existing.createdAt);
          }
        } else {
          next := next + [existing];
        }
      }
      assert cookies[..|cookies|] == cookies;
      assert Expired(cookie, now) == Expired(prepared, now);
      if Expired(cookie, now) {
        cookies := next;
        return;
      }
      cookies := next + [cookie];
    }

    method StoreResponseCookies(incoming: seq<Cookie>, now: nat, rules: Rules)
      requires DistinctKeys(cookies)
      modifies this
      ensures cookies == Stored(old(cookies), incoming, now, rules)
      ensures DistinctKeys(cookies)
    {
      StoredIsFold(cookies, incoming, now, rules);
      if incoming == [] {
        PruneExpired(now);
        return;
      }
      for i := 0 to |incoming|
        invariant cookies == StoreEach(old(cookies), incoming[..i], now, rules)
        invariant DistinctKeys(cookies)
      {
        assert incoming[..i + 1][..i] == incoming[..i];
        StoreOneIsSet(cookies, incoming[i], now, rules);
        hide DistinctKeys;
        var prepared := Prepare(incoming[i], now, rules);
        hide Prepared;
        if prepared.None? {
          continue;
        }
        PutCookie(prepared.value, now);
      }
      assert incoming[..|incoming|] == incoming;
      PruneExpired(now);
    }

    /** The cookie comes normalised from the form, with no creation time. */
    method SaveCookie(normalized: Cookie, id: string, now: nat, rules: Rules) returns (ok: bool)
      requires normalized.createdAt == 0 && now != 0
      modifies this
      ensures ok <==> Saved(old(cookies), normalized, id, now, rules).Some?
      ensures cookies == if ok then Saved(old(cookies), normalized, id, now, rules).value else old(cookies)
    {
      if !PrefixValid(normalized) || !Storable(normalized, rules) {
        return false;
      }
      hide Storable;
      hide PrefixValid;
      var cookie := normalized.(updatedAt := now);
      var key := Key(cookie);
      assert key == Key(normalized);
      var next := [];
      for i := 0 to |cookies|
        invariant cookies == old(cookies)
        invariant next == Filter(cookies[..i], NotReplaced(id, key))
        invariant cookie == normalized.(updatedAt := now, createdAt := FirstCreated(cookies[..i], id, key))
      {
        var existing := cookies[i];
        FilterNext(cookies, i, NotReplaced(id, key));
        FirstCreatedNext(cookies, i, id, key);
        hide Filter;
        hide FirstCreated;
        hide Key;
        if existing.id == id || Key(existing) == key {
          if existing.createdAt != 0 && cookie.createdAt == 0 {
            cookie := cookie.(createdAt := existing.createdAt);
          }
        } else {
          next := next + [existing];
        }
      }
      assert cookies[..|cookies|] == cookies;
      if cookie.createdAt == 0 {
        cookie := cookie.(createdAt := now);
      }
      assert cookie == Kept(cookies, normalized, id, now);
      assert Key(cookie) == key;
      cookies := next + [cookie];
      PruneExpired(now);
      return true;
    }

    method DeleteCookie(id: string) returns (found: bool)
      modifies this
      ensures found <==> exists c <- old(cookies) :: c.id == id
      ensures cookies == Filter(old(cookies), NotId(id))
    {
      var next := [];
      found := false;
      for i := 0 to |cookies|
        invariant cookies == old(cookies)
        invariant next == Filter(cookies[..i], NotId(id))
        invariant found <==> exists c <- cookies[..i] :: c.id == id
        invariant !found ==> next == cookies[..i]
      {
        FilterNext(cookies, i, NotId(id));
        assert cookies[..i + 1] == cookies[..i] + [cookies[i]];
        hide Filter;
        if cookies[i].id == id {
          found := true;
        } else {
          next := next + [cookies[i]];
        }
      }
      assert cookies[..|cookies|] == cookies;
      if found {
        cookies := next;
      }
    }

    method ClearDomainCookies(domain: string) returns (removed: nat)
      modifies this
      ensures removed == |old(cookies)| - |cookies|
      ensures NormalizeDomain(domain) != [] ==> cookies == Filter(old(cookies), NotDomain(NormalizeDomain(domain)))
      ensures NormalizeDomain(domain) == [] ==> cookies == old(cookies)
    {
      hide NormalizeDomain;
      removed := 0;
      var normalized := NormalizeDomain(domain);
      if normalized == [] {
        return;
      }
      var next := [];
      for i := 0 to |cookies|
        invariant cookies == old(cookies)
        invariant next == Filter(cookies[..i], NotDomain(normalized)) && removed == i - |next|
        invariant removed == 0 ==> next == cookies[..i]
      {
        FilterNext(cookies, i, NotDomain(normalized));
        assert cookies[..i + 1] == cookies[..i] + [cookies[i]];
        hide Filter;
        if NormalizeDomain(cookies[i].domain) == normalized {
          removed := removed + 1;
        } else {
          next := next + [cookies[i]];
        }
      }
      assert cookies[..|cookies|] == cookies;
      if removed != 0 {
        cookies := next;
      }
    }
  }

  method CollectRuntime(runtime: seq<Cookie>, now: nat, rules: Rules) returns (r: Runtime)
    ensures r == Collect(runtime, now, rules)
  {
    var byKey: map<string, Cookie>, keys := map[], [];
    for i := 0 to |runtime|
      invariant Runtime(byKey, keys) == Collect(runtime[..i], now, rules)
    {
      var cookie := runtime[i];
      assert runtime[..i + 1][..i] == runtime[..i];
      hide Storable;
      hide Key;
      if cookie.name == [] || cookie.domain == [] || Expired(cookie, now) {
        continue;
      }
      if cookie.path == [] {
        cookie := cookie.(path := "/");
      }
      if cookie.id == [] {
        cookie := cookie.(id := Key(cookie));
      }
      if !Storable(cookie, rules) {
        continue;
      }
      var key := Key(cookie);
      if key !in byKey {
        keys := keys + [key];
      }
      byKey := byKey[key := cookie];
    }
    assert runtime[..|runtime|] == runtime;
    r := Runtime(byKey, keys);
  }

  method CollectInitialKeys(initial: seq<Cookie>) returns (keys: set<string>)
    ensures keys == InitialKeys(initial)
  {
    keys := {};
    for i := 0 to |initial|
      invariant keys == InitialKeys(initial[..i])
    {
      var cookie := initial[i];
      assert initial[..i + 1] == initial[..i] + [cookie];
      if cookie.name != [] && cookie.domain != [] {
        keys := keys + {Key(cookie)};
      }
    }
    assert initial[..|initial|] == initial;
  }

  method MergeScriptJar(current: Jar, initial: seq<Cookie>, runtime: seq<Cookie>, now: nat, rules: Rules) returns (next: Jar)
    ensures next == Merged(current, initial, runtime, now, rules)
  {
    var initialKeys := CollectInitialKeys(initial);
    var r := CollectRuntime(runtime, now, rules);
    CollectIndexed(runtime, now, rules);
    hide Collect;
    hide InitialKeys;
    hide Key;
    next := [];
    for i := 0 to |current|
      invariant next == Filter(current[..i], Untouched(r, initialKeys))
    {
      FilterNext(current, i, Untouched(r, initialKeys));
      hide Filter;
      if Key(current[i]) in r.byKey {
        continue;
      }
      if Key(current[i]) in initialKeys {
        continue;
      }
      next := next + [current[i]];
    }
    assert current[..|current|] == current;
    ghost var others := next;
    hide Filter;
    for i := 0 to |r.keys|
      invariant next == others + Values(r)[..i]
    {
      next := next + [r.byKey[r.keys[i]]];
    }
    assert Values(r)[..|r.keys|] == Values(r);
  }
}
