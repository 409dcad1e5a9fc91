// What each tab operation leaves: which tabs are open and in which order, which is active,
// and what the history holds.

module TabEffects {
  import opened OpenTabs
  import opened Text

  // --- opening ---------------------------------------------------------------------------------

  /** The tabs of a list stay in their places but for one, which is put there, or behind all
      of them if its id was not open. */
  ghost predicate PutIn(before: seq<Tab>, after: seq<Tab>, t: Tab) {
    if HasId(before, t.id) then
      && |after| == |before| && t in after
      && forall k :: 0 <= k < |before| ==> after[k].id == before[k].id && (after[k] == before[k] || after[k] == t)
    else after == before + [t]
  }

  /** Opening a request makes its tab active; an open one keeps its panes and learns whether
      the request is transient, a new one comes in at the end with the first panes. */
  lemma OpenRequestEffect(s: Tabs, w: World, collection: string, item: string) returns (t: Tab)
    ensures var r := Apply(s, DoOpenRequest(collection, item), w);
            && t.id == collection + ":" + item && t.transient == w.isTransient(collection, item)
            && r.active == t.id && r.closed == s.closed && PutIn(s.open, r.open, t)
    ensures if HasId(s.open, t.id) then exists u <- s.open :: t == u.(transient := t.transient)
            else && t.collection == collection && t.item == item && t.kind == "request" && t.exampleId == "" && t.exampleName == ""
                 && t.requestPane == "params" && t.responsePane == "response"
  {
    var id := RequestTabId(collection, item);
    var r := OpenRequest(s, w, collection, item);
    var i := IndexOf(s.open, id);
    if i < |s.open| {
      t := s.open[i].(transient := w.isTransient(collection, item));
      assert s.open[i] in s.open && r.open[i] == t;
    } else {
      t := Tab(id, collection, item, "request", "", "", "params", "response", w.isTransient(collection, item));
    }
  }

  /** Opening an example likewise, its tab showing the examples. */
  lemma OpenExampleEffect(s: Tabs, w: World, collection: string, item: string, exampleId: string, exampleName: string) returns (t: Tab)
    ensures var r := Apply(s, DoOpenExample(collection, item, exampleId, exampleName), w);
            && t.id == collection + ":" + item + ":example:" + exampleId && ShowsExample(t, collection, item, exampleId, exampleName)
            && r.active == t.id && r.closed == s.closed && PutIn(s.open, r.open, t)
    ensures if HasId(s.open, t.id) then exists u <- s.open :: Turned(u, t) else t.requestPane == "params" && !t.transient
  {
    var id := ExampleTabId(collection, item, exampleId);
    assert id == collection + ":" + item + ":example:" + exampleId;
    hide ExampleTabId;
    var r := OpenExample(s, collection, item, exampleId, exampleName);
    var i := IndexOf(s.open, id);
    if i < |s.open| {
      t := AsExample(s.open[i], collection, item, exampleId, exampleName);
      assert s.open[i] in s.open && r.open[i] == t;
      assert Turned(s.open[i], t);
    } else {
      t := Tab(id, collection, item, "response-example", exampleId, exampleName, "params", "examples", false);
    }
  }

  predicate ShowsExample(t: Tab, collection: string, item: string, exampleId: string, exampleName: string) {
    && t.collection == collection && t.item == item && t.kind == "response-example" && t.exampleId == exampleId
    && t.exampleName == exampleName && t.responsePane == "examples"
  }

  /** What a tab turned into an example's keeps. */
  predicate Turned(u: Tab, t: Tab) {
    t.transient == u.transient && t.requestPane == if u.requestPane == "" then "params" else u.requestPane
  }

  const REQUEST_PANES := ["params", "body", "headers", "auth", "vars", "script", "assert", "tests", "docs", "app", "settings"]
  const RESPONSE_PANES := ["response", "headers", "metadata", "trailers", "timeline", "console", "tests", "examples"]

  /** Panes named replace those of the tab, unless one of them is none there is. */
  lemma UpdatePanesEffect(s: Tabs, w: World, id: string, requestPane: string, responsePane: string)
    requires DistinctIds(s.open)
    ensures var r := Apply(s, DoUpdatePanes(id, requestPane, responsePane), w);
            && r.closed == s.closed && r.active == s.active && |r.open| == |s.open|
            && forall k :: 0 <= k < |s.open| ==>
                 r.open[k] ==
                 if s.open[k].id == id && requestPane in [""] + REQUEST_PANES && responsePane in [""] + RESPONSE_PANES
                 then s.open[k].(requestPane := if requestPane == "" then s.open[k].requestPane else requestPane,
                                 responsePane := if responsePane == "" then s.open[k].responsePane else responsePane)
                 else s.open[k]
  {
    assert requestPane in [""] + REQUEST_PANES <==> requestPane == "" || ValidRequestPane(requestPane);
    assert responsePane in [""] + RESPONSE_PANES <==> responsePane == "" || ValidResponsePane(responsePane);
    hide ValidRequestPane;
    hide ValidResponsePane;
    forall k | 0 <= k < |s.open| && s.open[k].id == id
      ensures IndexOf(s.open, id) == k
    {
      IndexIs(s.open, k);
    }
  }

  lemma SetActiveEffect(s: Tabs, w: World, id: string)
    ensures var r := Apply(s, DoSetActive(id), w);
            r.open == s.open && r.closed == s.closed && r.active == if exists t <- s.open :: t.id == id then id else s.active
  {
  }

  // --- closing ---------------------------------------------------------------------------------

  /** The last fifty of a list. */
  function Newest(tabs: seq<Tab>): (r: seq<Tab>)
    ensures |r| <= 50
  {
    if |tabs| > 50 then tabs[|tabs| - 50..] else tabs
  }

  /** Tabs the history takes. */
  function Worthy(): Tab -> bool {
    (t: Tab) => t.id != "" && !t.transient
  }

  function NoneOf(tabs: seq<Tab>): Tab -> bool {
    (t: Tab) => !HasId(tabs, t.id)
  }

  function OtherThan(id: string): Tab -> bool {
    (t: Tab) => t.id != id
  }

  function Lasting(): Tab -> bool {
    (t: Tab) => !t.transient
  }

  function NoIdOf(tabs: seq<Tab>): Tab -> bool {
    (t: Tab) => forall u <- tabs :: u.id != t.id
  }

  lemma {:induction false} FilterJoin(a: seq<Tab>, b: seq<Tab>, keep: Tab -> bool)
    ensures Filter(a + b, keep) == Filter(a, keep) + Filter(b, keep)
    decreases |b|
  {
    if b == [] {
      assert a + b == a;
    } else {
      var n := |b| - 1;
      assert (a + b)[..|a + b| - 1] == a + b[..n];
      FilterJoin(a, b[..n], keep);
    }
  }

  lemma {:induction false} FilterTwice(tabs: seq<Tab>, p: Tab -> bool, q: Tab -> bool, both: Tab -> bool)
    requires forall t <- tabs :: both(t) <==> p(t) && q(t)
    ensures Filter(Filter(tabs, p), q) == Filter(tabs, both)
  {
    if tabs != [] {
      var n := |tabs| - 1;
      assert forall t <- tabs[..n] :: t in tabs;
      FilterTwice(tabs[..n], p, q, both);
      var last := if p(tabs[n]) then [tabs[n]] else [];
      FilterJoin(Filter(tabs[..n], p), last, q);
      assert [tabs[n]][..0] == [];
    }
  }

  lemma NewestTail(front: seq<Tab>, tail: seq<Tab>)
    requires |tail| >= HISTORY_LIMIT || front == []
    ensures Newest(front + tail) == Newest(tail)
  {
    var all := front + tail;
    if |tail| >= HISTORY_LIMIT {
      assert all[|all| - HISTORY_LIMIT..] == tail[|tail| - HISTORY_LIMIT..];
    } else {
      assert all == tail;
    }
  }

  /** Leaving out one id, then adding a tab of it, commutes with keeping the newest. */
  lemma RememberNewest(all: seq<Tab>, t: Tab)
    requires DistinctIds(all) && t.id != "" && !t.transient
    ensures Remember(Newest(all), t) == Newest(Filter(all, Not(ById(t.id))) + [t])
  {
    hide DistinctIds;
    hide HasId;
    hide Newest;
    hide Filter;
    hide Remember;
    var keep := Not(ById(t.id));
    var front := NewestSplit(all);
    FilterJoin(front, Newest(all), keep);
    OneGone(Newest(all), t.id);
    var x, y := Filter(front, keep), Filter(Newest(all), keep);
    RememberIs(Newest(all), t);
    FilterNothing(keep);
    NewestTail(x, y + [t]);
    assert x + y + [t] == x + (y + [t]);
  }

  lemma FilterNothing(keep: Tab -> bool)
    ensures Filter([], keep) == []
  {
  }

  lemma NewestSplit(all: seq<Tab>) returns (front: seq<Tab>)
    requires DistinctIds(all)
    ensures all == front + Newest(all) && (front == [] || |Newest(all)| == HISTORY_LIMIT)
    ensures DistinctIds(Newest(all))
  {
    front := all[..|all| - |Newest(all)|];
  }

  lemma RememberIs(closed: seq<Tab>, t: Tab)
    requires t.id != "" && !t.transient
    ensures Remember(closed, t) == Newest(Filter(closed, Not(ById(t.id))) + [t])
  {
    hide Filter;
  }

  lemma {:induction false} OneGone(tabs: seq<Tab>, id: string)
    requires DistinctIds(tabs)
    ensures |Filter(tabs, Not(ById(id)))| == |tabs| - if HasId(tabs, id) then 1 else 0
    ensures !HasId(tabs, id) ==> Filter(tabs, Not(ById(id))) == tabs
  {
    if tabs != [] {
      var n := |tabs| - 1;
      OneGone(tabs[..n], id);
      assert tabs == tabs[..n] + [tabs[n]];
    }
  }

  /** A list without some of another's elements, in the same order. */
  predicate Sub(part: seq<Tab>, all: seq<Tab>) {
    part == [] ||
    (all != [] &&
     var n, k := |all| - 1, |part| - 1;
     if part[k] == all[n] then Sub(part[..k], all[..n]) else Sub(part, all[..n]))
  }

  /** Exactly some tabs of a list stay, in order. */
  ghost predicate Leaves(before: seq<Tab>, after: seq<Tab>, stays: Tab -> bool) {
    Sub(after, before) && forall t :: t in after <==> t in before && stays(t)
  }

  lemma {:induction false} FilterSub(tabs: seq<Tab>, keep: Tab -> bool)
    requires DistinctIds(tabs)
    ensures Sub(Filter(tabs, keep), tabs)
  {
    if tabs != [] {
      var n := |tabs| - 1;
      var f := Filter(tabs[..n], keep);
      FilterSub(tabs[..n], keep);
      InFilter(tabs[..n], keep);
      assert tabs[n] !in tabs[..n];
      if keep(tabs[n]) {
        assert (f + [tabs[n]])[..|f|] == f;
      } else if f != [] {
        assert f[|f| - 1] in f && f + [] == f;
      }
    }
  }

  lemma FilterLeaves(tabs: seq<Tab>, keep: Tab -> bool, stays: Tab -> bool)
    requires DistinctIds(tabs) && forall t :: keep(t) <==> stays(t)
    ensures Leaves(tabs, Filter(tabs, keep), stays)
  {
    InFilter(tabs, keep);
    FilterSub(tabs, keep);
    hide Filter;
    hide Sub;
    hide DistinctIds;
  }

  /** The active tab stays, or the last one left takes over. */
  predicate HandedOn(r: Tabs, active: string, gone: bool) {
    r.active == if !gone then active else if r.open == [] then "" else r.open[|r.open| - 1].id
  }

  lemma DropEffect(s: Tabs, gone: Tab -> bool, stays: Tab -> bool)
    requires Inv(s) && forall t :: stays(t) <==> !gone(t)
    ensures var r := Drop(s, gone);
            && Leaves(s.open, r.open, stays) && r.closed == s.closed
            && HandedOn(r, s.active, !HasId(r.open, s.active))
  {
    FilterLeaves(s.open, Not(gone), stays);
    InFilter(s.open, Not(gone));
    hide Filter;
    hide ClosedOk;
    hide Canonical;
    hide Sub;
    var next := Filter(s.open, Not(gone));
    if t :| t in s.open && gone(t) && t.id == s.active {
      forall u <- next
        ensures u.id != s.active
      {
        SameTab(s.open, t, u);
      }
    } else if s.open != [] {
      var t :| t in s.open && t.id == s.active;
      assert t in next;
    }
  }

  /** Closing a tab takes it out of the open ones and, unless it is transient, puts it at
      the end of the history, in place of an older entry of its own. */
  lemma CloseEffect(s: Tabs, w: World, id: string, t: Tab)
    requires Inv(s) && t in s.open && t.id == id
    ensures var r := Apply(s, DoClose(id), w);
            && Leaves(s.open, r.open, OtherThan(id))
            && HandedOn(r, s.active, s.active == id)
            && if t.transient then r.closed == s.closed
               else exists older: seq<Tab> :: Leaves(s.closed, older, OtherThan(id)) && r.closed == Newest(older + [t])
  {
    hide Leaves;
    hide Filter;
    hide Remember;
    hide OpenOk;
    hide ClosedOk;
    hide ActiveOk;
    hide Drop;
    assert Apply(s, DoClose(id), w) == Close(s, id);
    hide Apply;
    TheTab(s.open, t);
    DropEffect(s, ById(id), OtherThan(id));
    DropById(s, id);
    HistoryEffect(s.closed, t);
  }

  lemma TheTab(tabs: seq<Tab>, t: Tab)
    requires OpenOk(tabs) && t in tabs
    ensures HasId(tabs, t.id) && LastIndexOf(tabs, t.id) < |tabs| && tabs[LastIndexOf(tabs, t.id)] == t && t.id != ""
  {
    SameTab(tabs, tabs[LastIndexOf(tabs, t.id)], t);
  }

  lemma HistoryEffect(closed: seq<Tab>, t: Tab)
    requires ClosedOk(closed) && t.id != ""
    ensures if t.transient then Remember(closed, t) == closed
            else exists older: seq<Tab> :: Leaves(closed, older, OtherThan(t.id)) && Remember(closed, t) == Newest(older + [t])
  {
    FilterLeaves(closed, Not(ById(t.id)), OtherThan(t.id));
    if !t.transient {
      RememberIs(closed, t);
      hide Remember;
    }
    hide Leaves;
    hide Filter;
    hide Newest;
  }

  lemma CloseNothing(s: Tabs, w: World, id: string)
    requires !HasId(s.open, id)
    ensures Apply(s, DoClose(id), w) == s
  {
  }

  lemma {:induction false} RememberAllExactly(closed: seq<Tab>, tabs: seq<Tab>)
    requires |closed| <= HISTORY_LIMIT && DistinctIds(closed) && DistinctIds(tabs)
    ensures var worthy := Filter(tabs, Worthy());
            RememberAll(closed, tabs) == Newest(Filter(closed, NoneOf(worthy)) + worthy)
  {
    if tabs == [] {
      FilterAll(closed, NoneOf([]));
    } else {
      var n := |tabs| - 1;
      var worthy := Filter(tabs[..n], Worthy());
      RememberAllExactly(closed, tabs[..n]);
      if Worthy()(tabs[n]) {
        assert tabs[..n] + [tabs[n]] == tabs;
        OneMoreRemembered(closed, tabs[..n], tabs[n]);
      } else {
        assert Filter(tabs, Worthy()) == worthy + [] == worthy;
      }
    }
  }

  lemma OneMoreRemembered(closed: seq<Tab>, front: seq<Tab>, t: Tab)
    requires DistinctIds(closed) && DistinctIds(front + [t]) && Worthy()(t)
    ensures var worthy := Filter(front, Worthy());
            Remember(Newest(Filter(closed, NoneOf(worthy)) + worthy), t)
            == Newest(Filter(closed, NoneOf(worthy + [t])) + (worthy + [t]))
  {
    var worthy := Filter(front, Worthy());
    FrontDistinct(front, t);
    assert t.id != "" && !t.transient;
    hide DistinctIds;
    hide Filter;
    hide Remember;
    hide Newest;
    hide NoneOf;
    hide Worthy;
    WorthyRest(closed, front);
    LastIsNew(front, t);
    OlderOnce(closed, worthy, t);
    RememberOn(Filter(closed, NoneOf(worthy)), worthy, t);
  }

  lemma FrontDistinct(front: seq<Tab>, t: Tab)
    requires DistinctIds(front + [t])
    ensures DistinctIds(front) && forall u <- front :: u.id != t.id
  {
    forall i | 0 <= i < |front|
      ensures (front + [t])[i] == front[i] && front[i].id != t.id
    {
      assert (front + [t])[|front|] == t;
    }
  }

  lemma RememberOn(rest: seq<Tab>, worthy: seq<Tab>, t: Tab)
    requires DistinctIds(rest + worthy) && t.id != "" && !t.transient && Filter(worthy, Not(ById(t.id))) == worthy
    ensures Remember(Newest(rest + worthy), t) == Newest(Filter(rest, Not(ById(t.id))) + (worthy + [t]))
  {
    hide DistinctIds;
    hide Filter;
    hide Remember;
    hide Newest;
    RememberNewest(rest + worthy, t);
    FilterJoin(rest, worthy, Not(ById(t.id)));
    assert Filter(rest, Not(ById(t.id))) + worthy + [t] == Filter(rest, Not(ById(t.id))) + (worthy + [t]);
  }

  lemma OlderOnce(closed: seq<Tab>, worthy: seq<Tab>, t: Tab)
    ensures Filter(Filter(closed, NoneOf(worthy)), Not(ById(t.id))) == Filter(closed, NoneOf(worthy + [t]))
  {
    OneMoreNone(worthy, t);
    hide Filter;
    hide NoneOf;
    hide Not;
    FilterTwice(closed, NoneOf(worthy), Not(ById(t.id)), NoneOf(worthy + [t]));
  }

  lemma OneMoreNone(worthy: seq<Tab>, t: Tab)
    ensures forall u :: NoneOf(worthy + [t])(u) <==> NoneOf(worthy)(u) && Not(ById(t.id))(u)
  {
    forall u
      ensures NoneOf(worthy + [t])(u) <==> NoneOf(worthy)(u) && Not(ById(t.id))(u)
    {
      assert forall x :: x in worthy + [t] <==> x in worthy || x == t;
    }
  }

  lemma LastIsNew(front: seq<Tab>, t: Tab)
    requires DistinctIds(front + [t])
    ensures Filter(Filter(front, Worthy()), Not(ById(t.id))) == Filter(front, Worthy())
  {
    FrontDistinct(front, t);
    InFilter(front, Worthy());
    FilterAll(Filter(front, Worthy()), Not(ById(t.id)));
    hide Filter;
    hide DistinctIds;
  }

  lemma WorthyRest(closed: seq<Tab>, tabs: seq<Tab>)
    requires DistinctIds(closed) && DistinctIds(tabs)
    ensures var worthy := Filter(tabs, Worthy()); DistinctIds(Filter(closed, NoneOf(worthy)) + worthy)
  {
    var worthy := Filter(tabs, Worthy());
    InFilter(tabs, Worthy());
    InFilter(closed, NoneOf(worthy));
    hide Filter;
    Apart(Filter(closed, NoneOf(worthy)), worthy);
  }

  lemma Apart(a: seq<Tab>, b: seq<Tab>)
    requires DistinctIds(a) && DistinctIds(b) && forall t <- a :: !HasId(b, t.id)
    ensures DistinctIds(a + b)
  {
    forall i, j | 0 <= i < |a| && 0 <= j < |b|
      ensures a[i].id != b[j].id
    {
      assert a[i] in a && b[j] in b;
    }
  }

  /** Closing all leaves none, and a history of what it held but for older entries of the
      tabs closed, and those in order, cut to the newest. */
  lemma CloseAllEffect(s: Tabs, w: World)
    requires Inv(s)
    ensures var r := Apply(s, DoCloseAll, w);
            && r.open == [] && r.active == ""
            && exists older: seq<Tab>, worthy: seq<Tab> ::
                 && Leaves(s.open, worthy, Lasting())
                 && Leaves(s.closed, older, NoIdOf(worthy))
                 && r.closed == Newest(older + worthy)
  {
    RememberAllExactly(s.closed, s.open);
    var worthy := Filter(s.open, Worthy());
    var older := Filter(s.closed, NoneOf(worthy));
    FilterLeaves(s.open, Worthy(), Worthy());
    FilterLeaves(s.closed, NoneOf(worthy), NoIdOf(worthy));
    LastingAreWorthy(s.open, worthy);
    hide Filter;
    hide RememberAll;
    hide Leaves;
    hide Newest;
    hide DistinctIds;
  }

  lemma LastingAreWorthy(tabs: seq<Tab>, worthy: seq<Tab>)
    requires OpenOk(tabs) && Leaves(tabs, worthy, Worthy())
    ensures Leaves(tabs, worthy, Lasting())
  {
    hide Sub;
    hide DistinctIds;
  }

  // --- reopening -------------------------------------------------------------------------------

  /** Entries of a collection, or any if none is named. */
  predicate Matches(t: Tab, collection: string) {
    collection == "" || t.collection == collection
  }

  function Unmatched(collection: string): Tab -> bool {
    (t: Tab) => !Matches(t, collection)
  }

  /** The entry still leads to a request. */
  predicate Leads(w: World, t: Tab) {
    t.id != "" && t.collection != "" && t.item != "" && !t.transient && w.present(t)
  }

  lemma {:induction false} LastClosedExactly(closed: seq<Tab>, collection: string)
    ensures var i := LastClosed(closed, collection);
            && (i < |closed| ==> Matches(closed[i], collection))
            && forall j :: 0 <= j < |closed| && (i == |closed| || i < j) ==> !Matches(closed[j], collection)
  {
    if closed != [] {
      var n := |closed| - 1;
      LastClosedExactly(closed[..n], collection);
      assert forall j :: 0 <= j < n ==> closed[..n][j] == closed[j];
    }
  }

  /** The i-th entry is the one reopened: the last of the collection that still leads
      somewhere. */
  predicate Reopens(closed: seq<Tab>, w: World, collection: string, i: nat) {
    && i < |closed| && Matches(closed[i], collection) && Leads(w, closed[i])
    && forall j :: i < j < |closed| ==> !(Matches(closed[j], collection) && Leads(w, closed[j]))
  }

  function Shown(t: Tab): Tab {
    t.(requestPane := if t.requestPane == "" then "params" else t.requestPane,
       responsePane := if t.responsePane == "" then "response" else t.responsePane)
  }

  /** The i-th entry is open and active, and gone from the history with the entries of the
      collection behind it. */
  ghost predicate Brought(s: Tabs, r: Tabs, collection: string, i: nat)
    requires i < |s.closed|
  {
    var t := s.closed[i];
    && r.closed == s.closed[..i] + Filter(s.closed[i + 1..], Unmatched(collection)) && r.active == t.id
    && r.open == if HasId(s.open, t.id) then s.open else s.open + [Shown(t)]
  }

  lemma {:induction false} ReopenAt(s: Tabs, w: World, collection: string, i: nat)
    requires Reopens(s.closed, w, collection, i)
    ensures Brought(s, Reopen(s, w, collection), collection, i)
    decreases |s.closed|
  {
    LastClosedExactly(s.closed, collection);
    var last := LastClosed(s.closed, collection);
    hide HasId;
    hide Matches;
    hide Filter;
    hide Restorable;
    hide Brought;
    if i == last {
      ReopenHere(s, w, collection, i);
    } else {
      var rest := s.(closed := s.closed[..last] + s.closed[last + 1..]);
      NotReopened(s.closed, w, collection, i, last);
      RestorableLeads(w, s.closed[last]);
      ReopenAt(rest, w, collection, i);
      BroughtToo(s, rest, Reopen(rest, w, collection), collection, i, last);
    }
  }

  lemma BroughtToo(s: Tabs, rest: Tabs, r: Tabs, collection: string, i: nat, last: nat)
    requires i < last < |s.closed| && rest == s.(closed := s.closed[..last] + s.closed[last + 1..])
    requires Matches(s.closed[last], collection) && Brought(rest, r, collection, i)
    ensures Brought(s, r, collection, i)
  {
    hide Filter;
    hide HasId;
    hide Matches;
    SkipOne(s.closed, i, last, Unmatched(collection));
  }

  lemma RestorableLeads(w: World, t: Tab)
    ensures Restorable(w, t) <==> Leads(w, t)
  {
  }

  lemma ReopenHere(s: Tabs, w: World, collection: string, i: nat)
    requires Reopens(s.closed, w, collection, i) && LastClosed(s.closed, collection) == i
    requires forall j :: i < j < |s.closed| ==> !Matches(s.closed[j], collection)
    ensures Brought(s, Reopen(s, w, collection), collection, i)
  {
    var t, later := s.closed[i], s.closed[i + 1..];
    RestorableLeads(w, t);
    FilterAll(later, Unmatched(collection));
    assert forall k :: 0 <= k < |later| ==> later[k] == s.closed[i + 1 + k];
    hide HasId;
    hide Matches;
    hide Filter;
    hide Restorable;
    hide LastClosed;
    assert Filter(later, Unmatched(collection)) == later;
  }

  lemma NotReopened(closed: seq<Tab>, w: World, collection: string, i: nat, last: nat)
    requires Reopens(closed, w, collection, i) && i < last < |closed|
    ensures Reopens(closed[..last] + closed[last + 1..], w, collection, i)
  {
    var rest := closed[..last] + closed[last + 1..];
    hide Matches;
    hide Leads;
    forall j | 0 <= j < |rest|
      ensures rest[j] == closed[if j < last then j else j + 1]
    {
    }
  }

  lemma FilterAround(a: seq<Tab>, t: Tab, b: seq<Tab>, keep: Tab -> bool)
    requires !keep(t)
    ensures Filter(a + ([t] + b), keep) == Filter(a + b, keep)
  {
    assert [t][..0] == [];
    assert Filter([t], keep) == [];
    hide Filter;
    FilterJoin(a, b, keep);
    FilterJoin(a, [t] + b, keep);
    FilterJoin([t], b, keep);
  }

  lemma SkipOne(closed: seq<Tab>, i: nat, last: nat, keep: Tab -> bool)
    requires i < last < |closed| && !keep(closed[last])
    ensures var rest := closed[..last] + closed[last + 1..];
            rest[..i] == closed[..i] && Filter(rest[i + 1..], keep) == Filter(closed[i + 1..], keep)
  {
    hide Filter;
    var rest := closed[..last] + closed[last + 1..];
    assert rest[i + 1..] == closed[i + 1..last] + closed[last + 1..];
    assert closed[i + 1..] == closed[i + 1..last] + ([closed[last]] + closed[last + 1..]);
    FilterAround(closed[i + 1..last], closed[last], closed[last + 1..], keep);
  }

  lemma {:induction false} ReopenNone(s: Tabs, w: World, collection: string)
    requires forall t <- s.closed :: !(Matches(t, collection) && Leads(w, t))
    ensures Reopen(s, w, collection) == s.(closed := Filter(s.closed, Unmatched(collection)))
    decreases |s.closed|
  {
    LastClosedExactly(s.closed, collection);
    var last := LastClosed(s.closed, collection);
    var keep := Unmatched(collection);
    hide HasId;
    hide Matches;
    if last == |s.closed| {
      FilterAll(s.closed, keep);
      hide Filter;
      assert s.(closed := s.closed) == s;
    } else {
      hide Filter;
      var rest := s.(closed := s.closed[..last] + s.closed[last + 1..]);
      assert !Restorable(w, s.closed[last]);
      assert forall t <- rest.closed :: t in s.closed;
      ReopenNone(rest, w, collection);
      LeaveOne(s.closed, last, keep);
    }
  }

  lemma LeaveOne(closed: seq<Tab>, last: nat, keep: Tab -> bool)
    requires last < |closed| && !keep(closed[last])
    ensures Filter(closed[..last] + closed[last + 1..], keep) == Filter(closed, keep)
  {
    hide Filter;
    assert closed == closed[..last] + ([closed[last]] + closed[last + 1..]);
    FilterAround(closed[..last], closed[last], closed[last + 1..], keep);
  }

  /** Reopening brings back the last closed tab of the collection that still leads to a
      request, at the end unless it is open, and forgets it and the collection's entries
      behind it; without one it forgets all of the collection's entries. */
  lemma ReopenEffect(s: Tabs, w: World, collection: string)
    requires Inv(s)
    ensures var r := Apply(s, DoReopen(collection), w);
            && (forall i: nat :: Reopens(s.closed, w, collection, i) ==>
                  && (exists newer :: Leaves(s.closed[i + 1..], newer, Unmatched(collection)) && r.closed == s.closed[..i] + newer)
                  && r.active == s.closed[i].id
                  && r.open == if HasId(s.open, s.closed[i].id) then s.open else s.open + [Shown(s.closed[i])])
            && ((forall t <- s.closed :: !(Matches(t, collection) && Leads(w, t))) ==>
                  r.open == s.open && r.active == s.active && Leaves(s.closed, r.closed, Unmatched(collection)))
  {
    hide Reopen;
    hide Leaves;
    hide Filter;
    hide HasId;
    hide Matches;
    hide Leads;
    forall i: nat | Reopens(s.closed, w, collection, i)
      ensures var r := Reopen(s, w, collection);
              && (exists newer :: Leaves(s.closed[i + 1..], newer, Unmatched(collection)) && r.closed == s.closed[..i] + newer)
              && r.active == s.closed[i].id
              && r.open == if HasId(s.open, s.closed[i].id) then s.open else s.open + [Shown(s.closed[i])]
    {
      ReopenAt(s, w, collection, i);
      TailDistinct(s.closed, i + 1);
      FilterLeaves(s.closed[i + 1..], Unmatched(collection), Unmatched(collection));
    }
    if forall t <- s.closed :: !(Matches(t, collection) && Leads(w, t)) {
      ReopenNone(s, w, collection);
      FilterLeaves(s.closed, Unmatched(collection), Unmatched(collection));
    }
  }

  // --- moving and rewriting --------------------------------------------------------------------

  /** One tab of a list stands at another place, and the others keep their order. */
  ghost predicate Stands(before: seq<Tab>, after: seq<Tab>, from: nat, to: int) {
    && from < |before| == |after| && 0 <= to < |after| && after[to] == before[from]
    && after[..to] + after[to + 1..] == before[..from] + before[from + 1..]
  }

  /** A move puts the tab so many places on, or at the end it runs into. */
  lemma MoveEffect(s: Tabs, w: World, id: string, offset: int, i: nat)
    requires Inv(s) && i < |s.open| && s.open[i].id == id
    ensures var r, last := Apply(s, DoMove(id, offset), w), |s.open| - 1;
            && r.closed == s.closed && r.active == s.active
            && Stands(s.open, r.open, i, if i + offset < 0 then 0 else if i + offset > last then last else i + offset)
  {
    hide Inv;
    hide Apply;
    hide Move;
    hide Moved;
    hide Stands;
    MoveAt(s, id, offset, i);
    MovedStands(s.open, i, offset);
    ApplyMove(s, w, id, offset);
  }

  lemma MoveAt(s: Tabs, id: string, offset: int, i: nat)
    requires Inv(s) && i < |s.open| && s.open[i].id == id
    ensures Move(s, id, offset) == s.(open := Moved(s.open, i, offset))
  {
    hide Moved;
    IndexIs(s.open, i);
    hide Inv;
    hide IndexOf;
  }

  lemma ApplyMove(s: Tabs, w: World, id: string, offset: int)
    ensures Apply(s, DoMove(id, offset), w) == Move(s, id, offset)
  {
    hide Move;
  }

  lemma MovedStands(tabs: seq<Tab>, i: nat, offset: int)
    requires i < |tabs|
    ensures Stands(tabs, Moved(tabs, i, offset), i, Target(tabs, i, offset))
  {
    MovedIds(tabs, i, Target(tabs, i, offset));
    hide InsertAt;
    hide Target;
  }

  /** Unknown ids move nothing. */
  lemma MoveNothing(s: Tabs, w: World, id: string, offset: int)
    requires !HasId(s.open, id)
    ensures Apply(s, DoMove(id, offset), w) == s
  {
  }

  /** A tab of the example, by its id or by what it shows. */
  predicate OfExample(t: Tab, collection: string, item: string, exampleId: string) {
    || t.id == collection + ":" + item + ":example:" + exampleId
    || (t.kind == "response-example" && t.collection == collection && t.item == item && t.exampleId == exampleId)
  }

  /** A sync rewrites the example's tabs where they are and leaves all others alone. */
  lemma SyncEffect(s: Tabs, w: World, collection: string, item: string, exampleId: string, exampleName: string)
    ensures var r := Apply(s, DoSyncExample(collection, item, exampleId, exampleName), w);
            && r.closed == s.closed && r.active == s.active && |r.open| == |s.open|
            && forall k :: 0 <= k < |s.open| ==>
                 if OfExample(s.open[k], collection, item, exampleId) then
                   && r.open[k].id == collection + ":" + item + ":example:" + exampleId
                   && ShowsExample(r.open[k], collection, item, exampleId, exampleName) && Turned(s.open[k], r.open[k])
                 else r.open[k] == s.open[k]
  {
    var id := ExampleTabId(collection, item, exampleId);
    assert id == collection + ":" + item + ":example:" + exampleId;
    assert forall t :: IsExample(collection, item, exampleId)(t) == OfExample(t, collection, item, exampleId);
    hide ExampleTabId;
    hide OfExample;
    hide IsExample;
  }

  // --- removing --------------------------------------------------------------------------------

  function Resolving(w: World): Tab -> bool {
    (t: Tab) => t.collection == "" || t.item == "" || w.present(t)
  }

  /** Pruning keeps the tabs that lead somewhere or name nothing to lead to. */
  lemma PruneEffect(s: Tabs, w: World)
    requires Inv(s)
    ensures var r := Apply(s, DoPrune, w);
            Leaves(s.open, r.open, Resolving(w)) && r.closed == s.closed && HandedOn(r, s.active, !HasId(r.open, s.active))
  {
    DropEffect(s, Orphan(w), Resolving(w));
  }

  function Elsewhere(collection: string): Tab -> bool {
    (t: Tab) => t.collection != collection
  }

  /** Of a removed collection no tab is left, open or closed; the first tab left takes over
      from an active one that went. */
  lemma RemoveCollectionEffect(s: Tabs, w: World, collection: string)
    requires Inv(s)
    ensures var r := Apply(s, DoRemoveCollection(collection), w);
            && Leaves(s.open, r.open, Elsewhere(collection)) && Leaves(s.closed, r.closed, Elsewhere(collection))
            && r.active == if r.open == [] then "" else if HasId(r.open, s.active) then s.active else r.open[0].id
  {
    FilterLeaves(s.open, Not(OfCollection(collection)), Elsewhere(collection));
    FilterLeaves(s.closed, Not(OfCollection(collection)), Elsewhere(collection));
    hide Leaves;
    hide Filter;
  }

  function Spared(collection: string, ids: set<string>, examples: bool): Tab -> bool {
    (t: Tab) => t.collection != collection || t.item !in ids || (!examples && t.kind == "response-example")
  }

  /** Of removed requests no tab is left, open or closed, but their examples' where those are
      kept. */
  lemma RemoveRequestsEffect(s: Tabs, w: World, collection: string, ids: set<string>, examples: bool)
    requires Inv(s)
    ensures var r, spared := Apply(s, DoRemoveRequests(collection, ids, examples), w), Spared(collection, ids, examples);
            && Leaves(s.open, r.open, spared) && Leaves(s.closed, r.closed, spared)
            && HandedOn(r, s.active, !HasId(r.open, s.active))
  {
    var gone, spared := OfRequests(collection, ids, examples), Spared(collection, ids, examples);
    assert Apply(s, DoRemoveRequests(collection, ids, examples), w) == RemoveRequests(s, collection, ids, examples);
    hide Apply;
    hide HasId;
    hide DistinctIds;
    hide Canonical;
    assert forall t :: spared(t) <==> !gone(t);
    hide Leaves;
    hide Filter;
    FilterLeaves(s.closed, Not(gone), spared);
    DropEffect(s, gone, spared);
    hide Drop;
    if ids == {} {
      FilterAll(s.closed, Not(gone));
      DropNothing(s, gone);
    }
  }

  lemma DropNothing(s: Tabs, gone: Tab -> bool)
    requires forall t <- s.open :: !gone(t)
    ensures Drop(s, gone) == s
  {
    FilterAll(s.open, Not(gone));
    hide Filter;
  }

  function OfNoExample(collection: string, item: string, exampleId: string): Tab -> bool {
    (t: Tab) => !OfExample(t, collection, item, exampleId)
  }

  /** Of a deleted example no open tab is left. */
  lemma CloseExampleEffect(s: Tabs, w: World, collection: string, item: string, exampleId: string)
    requires Inv(s)
    ensures var r := Apply(s, DoCloseExample(collection, item, exampleId), w);
            && Leaves(s.open, r.open, OfNoExample(collection, item, exampleId)) && r.closed == s.closed
            && HandedOn(r, s.active, !HasId(r.open, s.active))
  {
    assert ExampleTabId(collection, item, exampleId) == collection + ":" + item + ":example:" + exampleId;
    DropEffect(s, IsExample(collection, item, exampleId), OfNoExample(collection, item, exampleId));
    hide Leaves;
  }
}
