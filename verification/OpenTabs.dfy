// The open tabs, the active one and the closed ones: every operation that opens, closes,
// moves, prunes or rewrites them.

module OpenTabs {
  import opened Text

  datatype Tab = Tab(
    id: string, collection: string, item: string, kind: string, exampleId: string, exampleName: string,
    requestPane: string, responsePane: string, transient: bool)

  datatype Tabs = Tabs(open: seq<Tab>, closed: seq<Tab>, active: string)

  /** What a tab may point at, at the time of an operation: whether the request (and example)
      of a tab exists, and whether a request is transient. */
  datatype World = World(present: Tab -> bool, isTransient: (string, string) -> bool)

  const HISTORY_LIMIT: nat := 50

  // --- lists of tabs -------------------------------------------------------------------------------

  function Filter(tabs: seq<Tab>, keep: Tab -> bool): (r: seq<Tab>)
    ensures |r| <= |tabs|
  {
    if tabs == [] then []
    else
      var n := |tabs| - 1;
      Filter(tabs[..n], keep) + if keep(tabs[n]) then [tabs[n]] else []
  }

  ghost predicate DistinctIds(tabs: seq<Tab>) {
    forall i, j :: 0 <= i < j < |tabs| ==> tabs[i].id != tabs[j].id
  }

  predicate HasId(tabs: seq<Tab>, id: string) {
    exists t <- tabs :: t.id == id
  }

  function IndexOf(tabs: seq<Tab>, id: string): (i: nat)
    ensures i <= |tabs|
    ensures i < |tabs| ==> tabs[i].id == id
    ensures forall j :: 0 <= j < i ==> tabs[j].id != id
    ensures i < |tabs| <==> HasId(tabs, id)
  {
    if tabs == [] || tabs[0].id == id then 0 else
    var rest := IndexOf(tabs[1..], id);
    assert tabs == [tabs[0]] + tabs[1..];
    1 + rest
  }

  function LastIndexOf(tabs: seq<Tab>, id: string): (i: nat)
    ensures i <= |tabs|
    ensures i < |tabs| ==> tabs[i].id == id
    ensures forall j :: i < j < |tabs| ==> tabs[j].id != id
    ensures i < |tabs| <==> HasId(tabs, id)
  {
    if tabs == [] then 0
    else
      var n := |tabs| - 1;
      assert tabs == tabs[..n] + [tabs[n]];
      if tabs[n].id == id then n
      else
        var i := LastIndexOf(tabs[..n], id);
        if i < n then i else n + 1
  }

  lemma OneIndex(tabs: seq<Tab>, id: string)
    requires DistinctIds(tabs) && HasId(tabs, id)
    ensures IndexOf(tabs, id) == LastIndexOf(tabs, id)
  {
  }

  function LastId(tabs: seq<Tab>): string {
    if tabs == [] then "" else tabs[|tabs| - 1].id
  }

  function Not(p: Tab -> bool): Tab -> bool {
    (t: Tab) => !p(t)
  }

  function ById(id: string): Tab -> bool {
    (t: Tab) => t.id == id
  }

  // --- opening -------------------------------------------------------------------------------------

  function SetActive(s: Tabs, id: string): Tabs {
    if HasId(s.open, id) then s.(active := id) else s
  }

  function RequestTabId(collection: string, item: string): string {
    collection + ":" + item
  }

  function ExampleTabId(collection: string, item: string, example: string): string {
    collection + ":" + item + ":example:" + example
  }

  function OpenRequest(s: Tabs, w: World, collection: string, item: string): Tabs {
    var id := RequestTabId(collection, item);
    var i := IndexOf(s.open, id);
    var transient := w.isTransient(collection, item);
    if i < |s.open| then s.(open := s.open[i := s.open[i].(transient := transient)], active := id)
    else s.(open := s.open + [Tab(id, collection, item, "request", "", "", "params", "response", transient)], active := id)
  }

  /** A tab turned into the tab of an example. */
  function AsExample(t: Tab, collection: string, item: string, exampleId: string, exampleName: string): Tab {
    t.(id := ExampleTabId(collection, item, exampleId), collection := collection, item := item, kind := "response-example",
       exampleId := exampleId, exampleName := exampleName, responsePane := "examples",
       requestPane := if t.requestPane == "" then "params" else t.requestPane)
  }

  function OpenExample(s: Tabs, collection: string, item: string, exampleId: string, exampleName: string): Tabs {
    var id := ExampleTabId(collection, item, exampleId);
    var i := IndexOf(s.open, id);
    if i < |s.open|
    then s.(open := s.open[i := AsExample(s.open[i], collection, item, exampleId, exampleName)], active := id)
    else s.(open := s.open + [Tab(id, collection, item, "response-example", exampleId, exampleName, "params", "examples", false)], active := id)
  }

  predicate ValidRequestPane(p: string) {
    p in {"params", "body", "headers", "auth", "vars", "script", "assert", "tests", "docs", "app", "settings"}
  }

  predicate ValidResponsePane(p: string) {
    p in {"response", "headers", "metadata", "trailers", "timeline", "console", "tests", "examples"}
  }

  function UpdatePanes(s: Tabs, id: string, requestPane: string, responsePane: string): Tabs {
    var i := IndexOf(s.open, id);
    if i == |s.open| || (requestPane != "" && !ValidRequestPane(requestPane)) || (responsePane != "" && !ValidResponsePane(responsePane))
    then s
    else
      var t := s.open[i];
      s.(open := s.open[i := t.(requestPane := if requestPane != "" then requestPane else t.requestPane,
                                responsePane := if responsePane != "" then responsePane else t.responsePane)])
  }

  // --- closing and reopening -----------------------------------------------------------------------

  /** The history, most recent last, without an older entry of the tab and at most 50 long. */
  function Remember(closed: seq<Tab>, t: Tab): seq<Tab> {
    if t.id == "" || t.transient then closed
    else
      var next := Filter(closed, Not(ById(t.id))) + [t];
      if |next| > HISTORY_LIMIT then next[|next| - HISTORY_LIMIT..] else next
  }

  function RememberAll(closed: seq<Tab>, tabs: seq<Tab>): seq<Tab> {
    if tabs == [] then closed else Remember(RememberAll(closed, tabs[..|tabs| - 1]), tabs[|tabs| - 1])
  }

  /** Dropping tabs; if the active one goes the last one left becomes active. */
  function Drop(s: Tabs, gone: Tab -> bool): Tabs {
    var next := Filter(s.open, Not(gone));
    s.(open := next, active := if (exists t <- s.open :: gone(t) && t.id == s.active) then LastId(next) else s.active)
  }

  /** With several tabs of one id the last is remembered. */
  function Close(s: Tabs, id: string): Tabs {
    var i := LastIndexOf(s.open, id);
    if i == |s.open| then s
    else Drop(s, ById(id)).(closed := Remember(s.closed, s.open[i]))
  }

  function CloseAll(s: Tabs): Tabs {
    Tabs([], RememberAll(s.closed, s.open), "")
  }

  /** The last closed tab of a collection, or of any, or the length. */
  function LastClosed(closed: seq<Tab>, collection: string): (i: nat)
    ensures i <= |closed|
  {
    if closed == [] then 0
    else
      var n := |closed| - 1;
      if collection == "" || closed[n].collection == collection then n
      else
        var before := LastClosed(closed[..n], collection);
        if before == n then n + 1 else before
  }

  predicate Restorable(w: World, t: Tab) {
    t.id != "" && t.collection != "" && t.item != "" && !t.transient && w.present(t)
  }

  function WithPanes(t: Tab): Tab {
    t.(requestPane := if t.requestPane == "" then "params" else t.requestPane,
       responsePane := if t.responsePane == "" then "response" else t.responsePane)
  }

  /** Entries that no longer lead anywhere are dropped on the way. */
  function Reopen(s: Tabs, w: World, collection: string): Tabs
    decreases |s.closed|
  {
    var i := LastClosed(s.closed, collection);
    if i == |s.closed| then s
    else
      var t, rest := s.closed[i], s.(closed := s.closed[..i] + s.closed[i + 1..]);
      if !Restorable(w, t) then Reopen(rest, w, collection)
      else if HasId(s.open, t.id) then rest.(active := t.id)
      else rest.(open := s.open + [WithPanes(t)], active := t.id)
  }

  // --- moving --------------------------------------------------------------------------------------

  function Clamp(x: int, lo: int, hi: int): int {
    if x < lo then lo else if x > hi then hi else x
  }

  function Without(tabs: seq<Tab>, i: nat): (r: seq<Tab>)
    requires i < |tabs|
    ensures |r| == |tabs| - 1
  {
    tabs[..i] + tabs[i + 1..]
  }

  function InsertAt(tabs: seq<Tab>, i: nat, t: Tab): seq<Tab>
    requires i <= |tabs|
  {
    tabs[..i] + [t] + tabs[i..]
  }

  function Target(tabs: seq<Tab>, i: nat, offset: int): (target: nat)
    requires i < |tabs|
    ensures target < |tabs|
  {
    Clamp(i + offset, 0, |tabs| - 1)
  }

  /** One tab of a list taken out and put in again at the clamped index. */
  function Moved(tabs: seq<Tab>, i: nat, offset: int): seq<Tab>
    requires i < |tabs|
  {
    InsertAt(Without(tabs, i), Target(tabs, i, offset), tabs[i])
  }

  /** Taking the tab out and putting it in again at the clamped index. */
  function Move(s: Tabs, id: string, offset: int): Tabs {
    var i := IndexOf(s.open, id);
    if i == |s.open| then s
    else s.(open := Moved(s.open, i, offset))
  }

  // --- dropping what is gone -----------------------------------------------------------------------

  predicate Resolves(w: World, t: Tab) {
    t.collection == "" || t.item == "" || w.present(t)
  }

  function Orphan(w: World): Tab -> bool {
    (t: Tab) => !Resolves(w, t)
  }

  function Prune(s: Tabs, w: World): Tabs {
    Drop(s, Orphan(w))
  }

  function OfCollection(collection: string): Tab -> bool {
    (t: Tab) => t.collection == collection
  }

  function RemoveCollection(s: Tabs, collection: string): Tabs {
    var next := Filter(s.open, Not(OfCollection(collection)));
    Tabs(next, Filter(s.closed, Not(OfCollection(collection))),
         if next == [] then "" else if HasId(next, s.active) then s.active else next[0].id)
  }

  /** The tabs of some requests; examples may stay. */
  function OfRequests(collection: string, ids: set<string>, examples: bool): Tab -> bool {
    (t: Tab) => t.collection == collection && t.item in ids && (examples || t.kind != "response-example")
  }

  function RemoveRequests(s: Tabs, collection: string, ids: set<string>, examples: bool): Tabs {
    if ids == {} then s
    else Drop(s, OfRequests(collection, ids, examples)).(closed := Filter(s.closed, Not(OfRequests(collection, ids, examples))))
  }

  function IsExample(collection: string, item: string, exampleId: string): Tab -> bool {
    (t: Tab) =>
      t.id == ExampleTabId(collection, item, exampleId) ||
      (t.kind == "response-example" && t.collection == collection && t.item == item && t.exampleId == exampleId)
  }

  function CloseExample(s: Tabs, collection: string, item: string, exampleId: string): Tabs {
    Drop(s, IsExample(collection, item, exampleId))
  }

  function Synced(tabs: seq<Tab>, collection: string, item: string, exampleId: string, exampleName: string): (r: seq<Tab>)
    ensures |r| == |tabs|
  {
    seq(|tabs|, i requires 0 <= i < |tabs| =>
      if IsExample(collection, item, exampleId)(tabs[i]) then AsExample(tabs[i], collection, item, exampleId, exampleName) else tabs[i])
  }

  function SyncExample(s: Tabs, collection: string, item: string, exampleId: string, exampleName: string): Tabs {
    s.(open := Synced(s.open, collection, item, exampleId, exampleName))
  }

  // --- every run -----------------------------------------------------------------------------------

  datatype Op =
    | DoSetActive(id: string)
    | DoUpdatePanes(id: string, requestPane: string, responsePane: string)
    | DoOpenRequest(collection: string, item: string)
    | DoOpenExample(collection: string, item: string, exampleId: string, exampleName: string)
    | DoClose(id: string)
    | DoCloseAll
    | DoReopen(collection: string)
    | DoMove(id: string, offset: int)
    | DoPrune
    | DoRemoveCollection(collection: string)
    | DoRemoveRequests(collection: string, ids: set<string>, examples: bool)
    | DoCloseExample(collection: string, item: string, exampleId: string)
    | DoSyncExample(collection: string, item: string, exampleId: string, exampleName: string)

  function Apply(s: Tabs, op: Op, w: World): Tabs {
    match op
    case DoSetActive(id) => SetActive(s, id)
    case DoUpdatePanes(id, requestPane, responsePane) => UpdatePanes(s, id, requestPane, responsePane)
    case DoOpenRequest(collection, item) => OpenRequest(s, w, collection, item)
    case DoOpenExample(collection, item, exampleId, exampleName) => OpenExample(s, collection, item, exampleId, exampleName)
    case DoClose(id) => Close(s, id)
    case DoCloseAll => CloseAll(s)
    case DoReopen(collection) => Reopen(s, w, collection)
    case DoMove(id, offset) => Move(s, id, offset)
    case DoPrune => Prune(s, w)
    case DoRemoveCollection(collection) => RemoveCollection(s, collection)
    case DoRemoveRequests(collection, ids, examples) => RemoveRequests(s, collection, ids, examples)
    case DoCloseExample(collection, item, exampleId) => CloseExample(s, collection, item, exampleId)
    case DoSyncExample(collection, item, exampleId, exampleName) => SyncExample(s, collection, item, exampleId, exampleName)
  }

  /** Every operation comes with the world it finds. */
  function Run(s: Tabs, ops: seq<(Op, World)>): Tabs {
    if ops == [] then s else Apply(Run(s, ops[..|ops| - 1]), ops[|ops| - 1].0, ops[|ops| - 1].1)
  }

  /** An example's tab carries the id its collection, request and example give it. */
  predicate Canonical(t: Tab) {
    t.kind == "response-example" ==> t.id == ExampleTabId(t.collection, t.item, t.exampleId)
  }

  ghost predicate OpenOk(tabs: seq<Tab>) {
    DistinctIds(tabs) && forall t <- tabs :: t.id != "" && Canonical(t)
  }

  ghost predicate ClosedOk(closed: seq<Tab>) {
    DistinctIds(closed) && |closed| <= HISTORY_LIMIT && forall t <- closed :: t.id != "" && Canonical(t) && !t.transient
  }

  ghost predicate ActiveOk(tabs: seq<Tab>, active: string) {
    if tabs == [] then active == "" else HasId(tabs, active)
  }

  ghost predicate Inv(s: Tabs) {
    OpenOk(s.open) && ClosedOk(s.closed) && ActiveOk(s.open, s.active)
  }

  /** Open ids stay distinct, exactly one open tab is active unless none is open, and the
      history stays distinct and at most 50 long. */
  lemma {:induction false} RunKeepsTabs(s: Tabs, ops: seq<(Op, World)>)
    requires Inv(s)
    ensures Inv(Run(s, ops))
  {
    if ops != [] {
      var n := |ops| - 1;
      RunKeepsTabs(s, ops[..n]);
      StepKeepsTabs(Run(s, ops[..n]), ops[n].0, ops[n].1);
      hide Inv;
      hide Apply;
    }
  }

  lemma StepKeepsTabs(s: Tabs, op: Op, w: World)
    requires Inv(s)
    ensures Inv(Apply(s, op, w))
  {
    hide OpenOk;
    hide ClosedOk;
    match op
    case DoSetActive(id) =>
    case DoUpdatePanes(id, requestPane, responsePane) => UpdateKeeps(s, id, requestPane, responsePane);
    case DoOpenRequest(collection, item) => OpenRequestKeeps(s, w, collection, item);
    case DoOpenExample(collection, item, exampleId, exampleName) => OpenExampleKeeps(s, collection, item, exampleId, exampleName);
    case DoClose(id) => CloseKeeps(s, id);
    case DoCloseAll => CloseAllKeeps(s);
    case DoReopen(collection) => ReopenKeeps(s, w, collection);
    case DoMove(id, offset) => MoveKeeps(s, id, offset);
    case DoPrune => DropKeeps(s, Orphan(w));
    case DoRemoveCollection(collection) => RemoveCollectionKeeps(s, collection);
    case DoRemoveRequests(collection, ids, examples) => RemoveRequestsKeeps(s, collection, ids, examples);
    case DoCloseExample(collection, item, exampleId) => DropKeeps(s, IsExample(collection, item, exampleId));
    case DoSyncExample(collection, item, exampleId, exampleName) => SyncKeeps(s, collection, item, exampleId, exampleName);
  }

  lemma {:induction false} InFilter(tabs: seq<Tab>, keep: Tab -> bool)
    ensures forall t :: t in Filter(tabs, keep) <==> t in tabs && keep(t)
    ensures DistinctIds(tabs) ==> DistinctIds(Filter(tabs, keep))
  {
    if tabs != [] {
      var n := |tabs| - 1;
      InFilter(tabs[..n], keep);
      assert tabs == tabs[..n] + [tabs[n]];
      if DistinctIds(tabs) {
        assert DistinctIds(tabs[..n]);
        var f := Filter(tabs[..n], keep);
        forall t <- f
          ensures t.id != tabs[n].id
        {
          var i :| 0 <= i < n && tabs[..n][i] == t;
        }
      }
    }
  }

  lemma FilterOpenOk(tabs: seq<Tab>, keep: Tab -> bool)
    requires OpenOk(tabs)
    ensures OpenOk(Filter(tabs, keep))
  {
    InFilter(tabs, keep);
    hide DistinctIds;
    hide Filter;
    hide Canonical;
  }

  lemma FilterClosedOk(closed: seq<Tab>, keep: Tab -> bool)
    requires ClosedOk(closed)
    ensures ClosedOk(Filter(closed, keep))
  {
    InFilter(closed, keep);
    hide DistinctIds;
    hide Filter;
    hide Canonical;
  }

  lemma AppendOpenOk(tabs: seq<Tab>, t: Tab)
    requires OpenOk(tabs) && t.id != "" && Canonical(t) && !HasId(tabs, t.id)
    ensures OpenOk(tabs + [t]) && HasId(tabs + [t], t.id)
  {
    assert t in tabs + [t];
    forall i | 0 <= i < |tabs|
      ensures tabs[i].id != t.id
    {
      assert tabs[i] in tabs;
    }
  }

  lemma ReplaceOpenOk(tabs: seq<Tab>, i: nat, t: Tab)
    requires OpenOk(tabs) && i < |tabs| && t.id == tabs[i].id && Canonical(t)
    ensures OpenOk(tabs[i := t]) && forall id :: HasId(tabs[i := t], id) <==> HasId(tabs, id)
  {
    var r := tabs[i := t];
    forall k | 0 <= k < |r|
      ensures r[k].id != "" && Canonical(r[k]) && r[k].id == tabs[k].id
    {
      assert tabs[k] in tabs;
    }
    SameIds(tabs, r);
  }

  lemma SameIds(a: seq<Tab>, b: seq<Tab>)
    requires |a| == |b| && forall k :: 0 <= k < |a| ==> a[k].id == b[k].id
    ensures forall id :: HasId(a, id) <==> HasId(b, id)
  {
    forall id
      ensures HasId(a, id) <==> HasId(b, id)
    {
      if t :| t in a && t.id == id {
        var k :| 0 <= k < |a| && a[k] == t;
        assert b[k] in b;
      }
      if t :| t in b && t.id == id {
        var k :| 0 <= k < |b| && b[k] == t;
        assert a[k] in a;
      }
    }
  }

  lemma ActiveFrom(a: seq<Tab>, b: seq<Tab>, active: string)
    requires ActiveOk(a, active) && |a| == |b| && forall id :: HasId(a, id) <==> HasId(b, id)
    ensures ActiveOk(b, active)
  {
  }

  lemma UpdateKeeps(s: Tabs, id: string, requestPane: string, responsePane: string)
    requires Inv(s)
    ensures Inv(UpdatePanes(s, id, requestPane, responsePane))
  {
    hide ValidRequestPane;
    hide ValidResponsePane;
    var i, r := IndexOf(s.open, id), UpdatePanes(s, id, requestPane, responsePane);
    if r != s {
      assert s.open[i] in s.open;
      ReplaceOpenOk(s.open, i, r.open[i]);
      hide OpenOk;
      hide ClosedOk;
      ActiveFrom(s.open, r.open, s.active);
    }
  }

  lemma OpenRequestKeeps(s: Tabs, w: World, collection: string, item: string)
    requires Inv(s)
    ensures Inv(OpenRequest(s, w, collection, item))
  {
    var id := RequestTabId(collection, item);
    var i := IndexOf(s.open, id);
    assert id[|collection|] == ':';
    if i < |s.open| {
      assert s.open[i] in s.open;
      ReplaceOpenOk(s.open, i, s.open[i].(transient := w.isTransient(collection, item)));
    } else {
      AppendOpenOk(s.open, Tab(id, collection, item, "request", "", "", "params", "response", w.isTransient(collection, item)));
    }
    hide OpenOk;
    hide ClosedOk;
    hide RequestTabId;
  }

  lemma OpenExampleKeeps(s: Tabs, collection: string, item: string, exampleId: string, exampleName: string)
    requires Inv(s)
    ensures Inv(OpenExample(s, collection, item, exampleId, exampleName))
  {
    var id := ExampleTabId(collection, item, exampleId);
    var i := IndexOf(s.open, id);
    assert id[|collection|] == ':';
    hide ExampleTabId;
    if i < |s.open| {
      ReplaceOpenOk(s.open, i, AsExample(s.open[i], collection, item, exampleId, exampleName));
    } else {
      AppendOpenOk(s.open, Tab(id, collection, item, "response-example", exampleId, exampleName, "params", "examples", false));
    }
    hide OpenOk;
    hide ClosedOk;
  }

  lemma TailDistinct(tabs: seq<Tab>, n: nat)
    requires DistinctIds(tabs) && n <= |tabs|
    ensures DistinctIds(tabs[n..]) && forall t <- tabs[n..] :: t in tabs
  {
  }

  lemma RememberKeeps(closed: seq<Tab>, t: Tab)
    requires ClosedOk(closed) && Canonical(t)
    ensures ClosedOk(Remember(closed, t))
  {
    if t.id != "" && !t.transient {
      var others := Filter(closed, Not(ById(t.id)));
      InFilter(closed, Not(ById(t.id)));
      hide Filter;
      hide Canonical;
      var next := others + [t];
      forall i | 0 <= i < |others|
        ensures others[i].id != t.id
      {
        assert others[i] in others;
      }
      assert DistinctIds(next);
      hide DistinctIds;
      if |next| > HISTORY_LIMIT {
        TailDistinct(next, |next| - HISTORY_LIMIT);
      }
    }
  }

  lemma {:induction false} RememberAllKeeps(closed: seq<Tab>, tabs: seq<Tab>)
    requires ClosedOk(closed) && forall t <- tabs :: Canonical(t)
    ensures ClosedOk(RememberAll(closed, tabs))
  {
    if tabs != [] {
      RememberAllKeeps(closed, tabs[..|tabs| - 1]);
      assert tabs[|tabs| - 1] in tabs;
      RememberKeeps(RememberAll(closed, tabs[..|tabs| - 1]), tabs[|tabs| - 1]);
      hide Remember;
      hide ClosedOk;
      hide Canonical;
    }
  }

  lemma CloseAllKeeps(s: Tabs)
    requires Inv(s)
    ensures Inv(CloseAll(s))
  {
    RememberAllKeeps(s.closed, s.open);
    hide RememberAll;
  }

  lemma DropKeeps(s: Tabs, gone: Tab -> bool)
    requires Inv(s)
    ensures Inv(Drop(s, gone))
  {
    var next := Filter(s.open, Not(gone));
    FilterOpenOk(s.open, Not(gone));
    InFilter(s.open, Not(gone));
    hide OpenOk;
    hide ClosedOk;
    hide Filter;
    hide DistinctIds;
    if next != [] {
      assert next[|next| - 1] in next;
    }
    if !(exists t <- s.open :: gone(t) && t.id == s.active) && s.open != [] {
      var t :| t in s.open && t.id == s.active;
      assert t in next;
    }
  }

  lemma CloseKeeps(s: Tabs, id: string)
    requires Inv(s)
    ensures Inv(Close(s, id))
  {
    var i := LastIndexOf(s.open, id);
    if i < |s.open| {
      assert s.open[i] in s.open;
      RememberKeeps(s.closed, s.open[i]);
      DropKeeps(s, ById(id));
      hide Drop;
      hide Remember;
      hide OpenOk;
      hide ClosedOk;
      hide ActiveOk;
    }
  }

  lemma WithoutDistinct(tabs: seq<Tab>, i: nat)
    requires DistinctIds(tabs) && i < |tabs|
    ensures DistinctIds(Without(tabs, i)) && forall t :: t in Without(tabs, i) ==> t in tabs
  {
  }

  lemma {:induction false} ReopenKeeps(s: Tabs, w: World, collection: string)
    requires Inv(s)
    ensures Inv(Reopen(s, w, collection))
    decreases |s.closed|
  {
    var i := LastClosed(s.closed, collection);
    if i < |s.closed| {
      var t := s.closed[i];
      var rest := s.(closed := s.closed[..i] + s.closed[i + 1..]);
      assert t in s.closed;
      WithoutDistinct(s.closed, i);
      assert ClosedOk(rest.closed);
      assert t.id != "" && Canonical(t);
      hide ClosedOk;
      hide DistinctIds;
      if !Restorable(w, t) {
        ReopenKeeps(rest, w, collection);
      } else if !HasId(s.open, t.id) {
        AppendOpenOk(s.open, WithPanes(t));
        hide OpenOk;
      }
    }
  }

  // --- moving: taking out and putting back ---------------------------------------------------------

  lemma MovedIds(tabs: seq<Tab>, i: nat, target: nat)
    requires i < |tabs| && target < |tabs|
    ensures var r := InsertAt(Without(tabs, i), target, tabs[i]);
            && |r| == |tabs| && r[target] == tabs[i] && Without(r, target) == Without(tabs, i)
            && (forall t :: t in r <==> t in tabs)
  {
    var rest := Without(tabs, i);
    var r := InsertAt(rest, target, tabs[i]);
    assert Without(r, target) == rest;
    assert tabs == tabs[..i] + [tabs[i]] + tabs[i + 1..];
    forall t
      ensures t in r <==> t in tabs
    {
      assert t in r <==> t in rest[..target] || t == tabs[i] || t in rest[target..];
      assert rest == rest[..target] + rest[target..];
      assert t in rest <==> t in rest[..target] || t in rest[target..];
      assert t in rest <==> t in tabs[..i] || t in tabs[i + 1..];
    }
  }

  lemma InsertDistinct(rest: seq<Tab>, target: nat, t: Tab)
    requires DistinctIds(rest) && target <= |rest| && forall u <- rest :: u.id != t.id
    ensures DistinctIds(InsertAt(rest, target, t))
  {
  }

  lemma OthersDiffer(tabs: seq<Tab>, i: nat)
    requires DistinctIds(tabs) && i < |tabs|
    ensures forall u <- Without(tabs, i) :: u.id != tabs[i].id
  {
  }

  lemma MovedOk(tabs: seq<Tab>, i: nat, offset: int)
    requires OpenOk(tabs) && i < |tabs|
    ensures OpenOk(Moved(tabs, i, offset)) && Moved(tabs, i, offset) != []
    ensures forall t :: t in Moved(tabs, i, offset) <==> t in tabs
  {
    MovedIds(tabs, i, Target(tabs, i, offset));
    WithoutDistinct(tabs, i);
    OthersDiffer(tabs, i);
    InsertDistinct(Without(tabs, i), Target(tabs, i, offset), tabs[i]);
    hide Without;
    hide InsertAt;
    hide DistinctIds;
    hide Canonical;
    hide Target;
  }

  lemma MoveKeeps(s: Tabs, id: string, offset: int)
    requires Inv(s)
    ensures Inv(Move(s, id, offset))
  {
    var i := IndexOf(s.open, id);
    if i < |s.open| {
      MovedOk(s.open, i, offset);
      hide Moved;
      hide OpenOk;
      hide ClosedOk;
      hide IndexOf;
    }
  }

  lemma IndexIs(tabs: seq<Tab>, i: nat)
    requires DistinctIds(tabs) && i < |tabs|
    ensures IndexOf(tabs, tabs[i].id) == i
  {
    assert tabs[i] in tabs;
    assert forall j :: 0 <= j < i ==> tabs[j].id != tabs[i].id;
  }

  function Distance(from: int, to: int): int {
    to - from
  }

  lemma MovedBack(tabs: seq<Tab>, i: nat, offset: int)
    requires i < |tabs| && DistinctIds(Moved(tabs, i, offset))
    ensures var r, target := Moved(tabs, i, offset), Target(tabs, i, offset);
            IndexOf(r, tabs[i].id) == target < |r| && Moved(r, target, Distance(target, i)) == tabs
  {
    var r, target := Moved(tabs, i, offset), Target(tabs, i, offset);
    MovedIds(tabs, i, target);
    IndexIs(r, target);
    PutBack(tabs, i);
    assert |r| == |tabs| && Target(r, target, Distance(target, i)) == i;
    hide Without;
    hide InsertAt;
    hide IndexOf;
    hide DistinctIds;
    hide Target;
  }

  /** A move is undone by the opposite of the distance it went. */
  lemma MoveBack(s: Tabs, id: string, offset: int)
    requires Inv(s) && HasId(s.open, id)
    ensures var i := IndexOf(s.open, id);
            Move(Move(s, id, offset), id, Distance(Target(s.open, i, offset), i)) == s
  {
    var i := IndexOf(s.open, id);
    MoveKeeps(s, id, offset);
    assert DistinctIds(Moved(s.open, i, offset));
    hide Inv;
    hide DistinctIds;
    MovedBack(s.open, i, offset);
    hide Moved;
    hide IndexOf;
    hide Target;
  }

  lemma PutBack(tabs: seq<Tab>, i: nat)
    requires i < |tabs|
    ensures InsertAt(Without(tabs, i), i, tabs[i]) == tabs
  {
  }

  lemma MovedLeft(tabs: seq<Tab>, i: nat, target: nat)
    requires target < i < |tabs|
    ensures tabs[..target] + [tabs[i]] + tabs[target..i] + tabs[i + 1..] == InsertAt(Without(tabs, i), target, tabs[i])
  {
    var rest := Without(tabs, i);
    assert rest[..target] == tabs[..target];
    assert rest[target..] == tabs[target..i] + tabs[i + 1..];
  }

  lemma MovedRight(tabs: seq<Tab>, i: nat, target: nat)
    requires i < target < |tabs|
    ensures tabs[..i] + tabs[i + 1..target + 1] + [tabs[i]] + tabs[target + 1..] == InsertAt(Without(tabs, i), target, tabs[i])
  {
    var rest := Without(tabs, i);
    assert rest[..target] == tabs[..i] + tabs[i + 1..target + 1];
    assert rest[target..] == tabs[target + 1..];
  }

  // --- removing ------------------------------------------------------------------------------------

  lemma RemoveCollectionKeeps(s: Tabs, collection: string)
    requires Inv(s)
    ensures Inv(RemoveCollection(s, collection))
  {
    FilterOpenOk(s.open, Not(OfCollection(collection)));
    FilterClosedOk(s.closed, Not(OfCollection(collection)));
    var next := Filter(s.open, Not(OfCollection(collection)));
    hide OpenOk;
    hide ClosedOk;
    hide Filter;
    if next != [] {
      assert next[0] in next;
    }
  }

  lemma RemoveRequestsKeeps(s: Tabs, collection: string, ids: set<string>, examples: bool)
    requires Inv(s)
    ensures Inv(RemoveRequests(s, collection, ids, examples))
  {
    DropKeeps(s, OfRequests(collection, ids, examples));
    FilterClosedOk(s.closed, Not(OfRequests(collection, ids, examples)));
    hide OpenOk;
    hide ClosedOk;
    hide ActiveOk;
    hide Filter;
  }

  lemma SyncOne(t: Tab, collection: string, item: string, exampleId: string, exampleName: string)
    requires Canonical(t) && IsExample(collection, item, exampleId)(t)
    ensures t.id == ExampleTabId(collection, item, exampleId)
    ensures Canonical(AsExample(t, collection, item, exampleId, exampleName))
  {
  }

  /** While example tabs carry their own ids a sync renames none of them. */
  lemma SyncKeeps(s: Tabs, collection: string, item: string, exampleId: string, exampleName: string)
    requires Inv(s)
    ensures Inv(SyncExample(s, collection, item, exampleId, exampleName))
  {
    var r := Synced(s.open, collection, item, exampleId, exampleName);
    hide ExampleTabId;
    forall k | 0 <= k < |r|
      ensures r[k].id == s.open[k].id && r[k].id != "" && Canonical(r[k])
    {
      assert s.open[k] in s.open;
      if IsExample(collection, item, exampleId)(s.open[k]) {
        SyncOne(s.open[k], collection, item, exampleId, exampleName);
      }
    }
    SameIds(s.open, r);
    hide ClosedOk;
    hide Synced;
    ActiveFrom(s.open, r, s.active);
  }

  /** A sync keeps the ids distinct exactly when no two tabs match, whatever their ids. */
  lemma SyncDistinct(tabs: seq<Tab>, collection: string, item: string, exampleId: string, exampleName: string)
    requires DistinctIds(tabs)
    ensures DistinctIds(Synced(tabs, collection, item, exampleId, exampleName)) <==>
            forall i, j :: 0 <= i < j < |tabs| ==>
              !(IsExample(collection, item, exampleId)(tabs[i]) && IsExample(collection, item, exampleId)(tabs[j]))
  {
    var r, matching := Synced(tabs, collection, item, exampleId, exampleName), IsExample(collection, item, exampleId);
    var id := ExampleTabId(collection, item, exampleId);
    assert forall k :: 0 <= k < |r| ==> r[k].id == if matching(tabs[k]) then id else tabs[k].id;
    assert forall k :: 0 <= k < |r| ==> !matching(tabs[k]) ==> tabs[k].id != id;
    hide Synced;
    hide ExampleTabId;
    if i, j :| 0 <= i < j < |tabs| && matching(tabs[i]) && matching(tabs[j]) {
      assert r[i].id == r[j].id;
    }
  }

  // --- what pruning and reopening do ---------------------------------------------------------------

  /** Tabs that resolve stay, in order; the others go. The active tab stays active if it
      resolves, and otherwise the last one left takes over. */
  lemma PruneExactly(s: Tabs, w: World)
    requires Inv(s)
    ensures var r := Prune(s, w);
            && (forall t :: t in r.open <==> t in s.open && Resolves(w, t))
            && r.open == Filter(s.open, Not(Orphan(w))) && r.closed == s.closed
            && r.active == (if HasId(r.open, s.active) then s.active else LastId(r.open))
  {
    InFilter(s.open, Not(Orphan(w)));
    var next := Filter(s.open, Not(Orphan(w)));
    hide Filter;
    hide ClosedOk;
    hide Canonical;
    if t :| t in s.open && Orphan(w)(t) && t.id == s.active {
      forall u <- next
        ensures u.id != s.active
      {
        SameTab(s.open, t, u);
      }
    } else if s.open != [] {
      var t :| t in s.open && t.id == s.active;
      assert t in next;
    }
  }

  lemma SameTab(tabs: seq<Tab>, t: Tab, u: Tab)
    requires DistinctIds(tabs) && t in tabs && u in tabs
    ensures t.id == u.id ==> t == u
  {
    var i :| 0 <= i < |tabs| && tabs[i] == t;
    var j :| 0 <= j < |tabs| && tabs[j] == u;
  }

  /** Reopening after closing a tab that still resolves brings it back at the end, active,
      and leaves the rest of the tabs as they were; of the history only an older entry of
      the tab is lost, and the oldest one if it was full. */
  lemma CloseThenReopen(s: Tabs, w: World, id: string)
    requires Inv(s) && HasId(s.open, id) && Restorable(w, s.open[IndexOf(s.open, id)])
    ensures var t, r := s.open[IndexOf(s.open, id)], Reopen(Close(s, id), w, "");
            var older := Filter(s.closed, Not(ById(id)));
            && r.open == Filter(s.open, Not(ById(id))) + [WithPanes(t)] && r.active == id
            && r.closed == if |older| == HISTORY_LIMIT then older[1..] else older
  {
    var t := s.open[IndexOf(s.open, id)];
    var c := Close(s, id);
    OneIndex(s.open, id);
    hide LastIndexOf;
    var older := Filter(s.closed, Not(ById(id)));
    InFilter(s.open, Not(ById(id)));
    assert |older| <= HISTORY_LIMIT;
    hide Inv;
    hide DistinctIds;
    var kept := if |older| == HISTORY_LIMIT then older[1..] else older;
    assert c.closed == kept + [t];
    assert c.open == Filter(s.open, Not(ById(id)));
    assert !HasId(c.open, id);
    hide Filter;
    hide Close;
    hide HasId;
    hide IndexOf;
    ReopenLast(c, w, kept, t);
    hide Reopen;
  }

  lemma ReopenLast(c: Tabs, w: World, kept: seq<Tab>, t: Tab)
    requires c.closed == kept + [t] && Restorable(w, t) && !HasId(c.open, t.id)
    ensures Reopen(c, w, "") == Tabs(c.open + [WithPanes(t)], kept, t.id)
  {
    hide HasId;
    hide Restorable;
    var n := |kept|;
    assert c.closed[n] == t && c.closed[..n] + c.closed[n + 1..] == kept;
    assert LastClosed(c.closed, "") == n;
  }

  // --- as the source runs it -----------------------------------------------------------------------

  lemma FilterNext(tabs: seq<Tab>, i: nat, keep: Tab -> bool)
    requires i < |tabs|
    ensures Filter(tabs[..i + 1], keep) == Filter(tabs[..i], keep) + if keep(tabs[i]) then [tabs[i]] else []
  {
    assert tabs[..i + 1][..i] == tabs[..i];
  }

  lemma NoOrphans(tabs: seq<Tab>, w: World)
    ensures |Filter(tabs, Not(Orphan(w)))| == |tabs| <==> forall t <- tabs :: Resolves(w, t)
    ensures (forall t <- tabs :: Resolves(w, t)) ==> Filter(tabs, Not(Orphan(w))) == tabs
    ensures forall t <- tabs :: Orphan(w)(t) <==> !Resolves(w, t)
  {
    FilterAll(tabs, Not(Orphan(w)));
    hide Filter;
    hide Resolves;
  }

  lemma PruneParts(s: Tabs, w: World)
    ensures var next := Filter(s.open, Not(Orphan(w)));
            && ((exists t <- s.open :: Orphan(w)(t) && t.id == s.active) ==> Prune(s, w) == Tabs(next, s.closed, LastId(next)))
            && (!(exists t <- s.open :: Orphan(w)(t) && t.id == s.active) ==> Prune(s, w) == Tabs(next, s.closed, s.active))
  {
    hide Filter;
    hide Resolves;
  }

  lemma DropById(s: Tabs, id: string)
    requires HasId(s.open, id)
    ensures var next := Filter(s.open, Not(ById(id)));
            Drop(s, ById(id)) == Tabs(next, s.closed, if s.active == id then LastId(next) else s.active)
  {
    hide Filter;
  }

  lemma LastIndexNext(tabs: seq<Tab>, i: nat, id: string)
    requires i < |tabs|
    ensures HasId(tabs[..i + 1], id) <==> HasId(tabs[..i], id) || tabs[i].id == id
    ensures HasId(tabs[..i + 1], id) ==>
              LastIndexOf(tabs[..i + 1], id) == if tabs[i].id == id then i else LastIndexOf(tabs[..i], id)
  {
    assert tabs[..i + 1] == tabs[..i] + [tabs[i]];
    assert tabs[..i + 1][..i] == tabs[..i];
  }

  lemma {:induction false} FilterAll(tabs: seq<Tab>, keep: Tab -> bool)
    ensures |Filter(tabs, keep)| == |tabs| <==> forall t <- tabs :: keep(t)
    ensures (forall t <- tabs :: keep(t)) ==> Filter(tabs, keep) == tabs
  {
    if tabs != [] {
      var n := |tabs| - 1;
      FilterAll(tabs[..n], keep);
      assert tabs == tabs[..n] + [tabs[n]];
    }
  }

  /** Filters a list in place, reporting whether the active tab was among those dropped. */
  method FilterTabs(tabs: seq<Tab>, gone: Tab -> bool, active: string) returns (next: seq<Tab>, removedActive: bool)
    ensures next == Filter(tabs, Not(gone))
    ensures removedActive <==> exists t <- tabs :: gone(t) && t.id == active
  {
    next, removedActive := [], false;
    for i := 0 to |tabs|
      invariant next == Filter(tabs[..i], Not(gone))
      invariant removedActive <==> exists t <- tabs[..i] :: gone(t) && t.id == active
    {
      FilterNext(tabs, i, Not(gone));
      assert tabs[..i + 1] == tabs[..i] + [tabs[i]];
      hide Filter;
      if gone(tabs[i]) {
        if tabs[i].id == active {
          removedActive := true;
        }
        continue;
      }
      next := next + [tabs[i]];
    }
    assert tabs[..|tabs|] == tabs;
  }

  lemma MoveIs(s: Tabs, id: string, offset: int, i: nat, target: int)
    requires HasId(s.open, id) && i == IndexOf(s.open, id) && target == Clamp(i + offset, 0, |s.open| - 1)
    ensures 0 <= target < |s.open| && (offset == 0 ==> target == i)
    ensures Move(s, id, offset) == s.(open := InsertAt(Without(s.open, i), target, s.open[i]))
    ensures target == i ==> Move(s, id, offset) == s
  {
    hide InsertAt;
    hide Without;
    hide HasId;
    hide IndexOf;
    PutBack(s.open, i);
    assert Moved(s.open, i, offset) == InsertAt(Without(s.open, i), target, s.open[i]);
    hide Moved;
    hide Clamp;
    hide Target;
    assert Move(s, id, offset) == s.(open := Moved(s.open, i, offset));
  }

  /** The tabs between the two places shift by one. */
  method Shift(tabs: seq<Tab>, index: nat, target: nat) returns (r: seq<Tab>)
    requires index < |tabs| && target < |tabs| && index != target
    ensures r == InsertAt(Without(tabs, index), target, tabs[index])
  {
    hide InsertAt;
    hide Without;
    var t := tabs[index];
    if target < index {
      MovedLeft(tabs, index, target);
      r := tabs[..target] + [t] + tabs[target..index] + tabs[index + 1..];
    } else {
      MovedRight(tabs, index, target);
      r := tabs[..index] + tabs[index + 1..target + 1] + [t] + tabs[target + 1..];
    }
  }

  class App {
    var openTabs: seq<Tab>
    var closedTabs: seq<Tab>
    var activeTabId: string

    constructor ()
      ensures State() == Tabs([], [], "")
    {
      openTabs, closedTabs, activeTabId := [], [], "";
    }

    function State(): Tabs
      reads this
    {
      Tabs(openTabs, closedTabs, activeTabId)
    }

    method FindTab(id: string) returns (index: Option<nat>)
      ensures index == if HasId(openTabs, id) then Some(IndexOf(openTabs, id)) else None
    {
      for i := 0 to |openTabs|
        invariant forall j :: 0 <= j < i ==> openTabs[j].id != id
      {
        if openTabs[i].id == id {
          assert openTabs[i] in openTabs;
          return Some(i);
        }
      }
      return None;
    }

    method SetActiveTab(id: string) returns (found: bool)
      modifies this
      ensures found <==> HasId(old(openTabs), id)
      ensures State() == SetActive(old(State()), id)
    {
      var index := FindTab(id);
      if index.None? {
        return false;
      }
      activeTabId := id;
      return true;
    }

    method UpdateOpenTabPanes(id: string, requestPane: string, responsePane: string) returns (found: bool)
      modifies this
      ensures State() == UpdatePanes(old(State()), id, requestPane, responsePane)
      ensures found <==>
              HasId(old(openTabs), id) && (requestPane == "" || ValidRequestPane(requestPane)) &&
              (responsePane == "" || ValidResponsePane(responsePane))
    {
      var index := FindTab(id);
      if index.None? {
        return false;
      }
      var i := index.value;
      if requestPane != "" && !ValidRequestPane(requestPane) {
        return false;
      }
      if responsePane != "" && !ValidResponsePane(responsePane) {
        return false;
      }
      hide ValidRequestPane;
      hide ValidResponsePane;
      if requestPane != "" {
        openTabs := openTabs[i := openTabs[i].(requestPane := requestPane)];
      }
      if responsePane != "" {
        openTabs := openTabs[i := openTabs[i].(responsePane := responsePane)];
      }
      assert openTabs == UpdatePanes(old(State()), id, requestPane, responsePane).open;
      return true;
    }

    method OpenTab(w: World, collection: string, item: string)
      modifies this
      ensures State() == OpenRequest(old(State()), w, collection, item)
    {
      var id := RequestTabId(collection, item);
      var transient := w.isTransient(collection, item);
      var index := FindTab(id);
      if index.Some? {
        openTabs := openTabs[index.value := openTabs[index.value].(transient := transient)];
      } else {
        openTabs := openTabs + [Tab(id, collection, item, "request", "", "", "params", "response", transient)];
      }
      activeTabId := id;
    }

    method OpenResponseExampleTab(collection: string, item: string, exampleId: string, exampleName: string)
      modifies this
      ensures State() == OpenExample(old(State()), collection, item, exampleId, exampleName)
    {
      var id := ExampleTabId(collection, item, exampleId);
      var index := FindTab(id);
      if index.Some? {
        openTabs := openTabs[index.value := AsExample(openTabs[index.value], collection, item, exampleId, exampleName)];
      } else {
        openTabs := openTabs + [Tab(id, collection, item, "response-example", exampleId, exampleName, "params", "examples", false)];
      }
      activeTabId := id;
    }

    method RememberClosedTab(t: Tab)
      modifies this`closedTabs
      ensures closedTabs == Remember(old(closedTabs), t)
    {
      if t.id == "" || t.transient {
        return;
      }
      var next, _ := FilterTabs(closedTabs, ById(t.id), "");
      next := next + [t];
      if |next| > HISTORY_LIMIT {
        next := next[|next| - HISTORY_LIMIT..];
      }
      closedTabs := next;
    }

    method DropTabs(gone: Tab -> bool)
      modifies this`openTabs, this`activeTabId
      ensures State() == Drop(old(State()), gone)
    {
      var next, removedActive := FilterTabs(openTabs, gone, activeTabId);
      openTabs := next;
      if !removedActive {
        return;
      }
      activeTabId := "";
      if |openTabs| > 0 {
        activeTabId := openTabs[|openTabs| - 1].id;
      }
    }

    /** The tabs without the ones of an id, and the last of those. */
    method WithoutTab(id: string) returns (next: seq<Tab>, closed: Option<Tab>)
      ensures next == Filter(openTabs, Not(ById(id)))
      ensures closed == if HasId(openTabs, id) then Some(openTabs[LastIndexOf(openTabs, id)]) else None
    {
      next, closed := [], None;
      for i := 0 to |openTabs|
        invariant next == Filter(openTabs[..i], Not(ById(id)))
        invariant closed == if HasId(openTabs[..i], id) then Some(openTabs[LastIndexOf(openTabs[..i], id)]) else None
      {
        FilterNext(openTabs, i, Not(ById(id)));
        LastIndexNext(openTabs, i, id);
        hide Filter;
        hide LastIndexOf;
        hide HasId;
        if openTabs[i].id != id {
          next := next + [openTabs[i]];
        } else {
          closed := Some(openTabs[i]);
        }
      }
      assert openTabs[..|openTabs|] == openTabs;
    }

    method CloseTab(id: string) returns (found: bool)
      modifies this
      ensures found <==> HasId(old(openTabs), id)
      ensures State() == Close(old(State()), id)
    {
      hide Drop;
      hide Remember;
      hide Filter;
      hide LastIndexOf;
      hide HasId;
      var next, closed := WithoutTab(id);
      if closed.None? {
        return false;
      }
      DropById(State(), id);
      RememberClosedTab(closed.value);
      openTabs := next;
      if activeTabId == id {
        activeTabId := "";
        if |openTabs| > 0 {
          activeTabId := openTabs[|openTabs| - 1].id;
        }
      }
      return true;
    }

    method CloseAllTabs()
      modifies this
      ensures State() == CloseAll(old(State()))
    {
      for i := 0 to |openTabs|
        invariant openTabs == old(openTabs) && closedTabs == RememberAll(old(closedTabs), openTabs[..i])
      {
        RememberClosedTab(openTabs[i]);
        assert openTabs[..i + 1][..i] == openTabs[..i];
      }
      assert openTabs[..|openTabs|] == openTabs;
      openTabs := [];
      activeTabId := "";
    }

    method LastClosedTabIndex(collection: string) returns (index: Option<nat>)
      ensures index == if LastClosed(closedTabs, collection) < |closedTabs| then Some(LastClosed(closedTabs, collection)) else None
    {
      var n := |closedTabs|;
      assert closedTabs[..n] == closedTabs;
      while n > 0
        invariant n <= |closedTabs|
        invariant LastClosed(closedTabs, collection) ==
                  if LastClosed(closedTabs[..n], collection) == n then |closedTabs| else LastClosed(closedTabs[..n], collection)
      {
        assert closedTabs[..n][..n - 1] == closedTabs[..n - 1];
        n := n - 1;
        if collection == "" || closedTabs[n].collection == collection {
          return Some(n);
        }
      }
      return None;
    }

    method ReopenLastClosedTab(w: World, collection: string)
      modifies this
      ensures State() == Reopen(old(State()), w, collection)
    {
      while true
        invariant Reopen(State(), w, collection) == Reopen(old(State()), w, collection)
        invariant openTabs == old(openTabs)
        decreases |closedTabs|
      {
        var index := LastClosedTabIndex(collection);
        hide LastClosed;
        if index.None? {
          return;
        }
        var t := closedTabs[index.value];
        closedTabs := closedTabs[..index.value] + closedTabs[index.value + 1..];
        if !Restorable(w, t) {
          continue;
        }
        var existing := FindTab(t.id);
        if existing.None? {
          openTabs := openTabs + [WithPanes(t)];
        }
        activeTabId := t.id;
        return;
      }
    }

    method MoveOpenTab(id: string, offset: int) returns (found: bool)
      modifies this
      ensures found <==> HasId(old(openTabs), id)
      ensures State() == Move(old(State()), id, offset)
    {
      var position := FindTab(id);
      if position.None? {
        return false;
      }
      var index := position.value;
      var target := Clamp(index + offset, 0, |openTabs| - 1);
      MoveIs(State(), id, offset, index, target);
      hide InsertAt;
      hide Without;
      hide HasId;
      hide IndexOf;
      hide Move;
      if offset == 0 || target == index {
        return true;
      }
      openTabs := Shift(openTabs, index, target);
      return true;
    }

    method PruneOrphanedOpenTabs(w: World) returns (removed: bool)
      modifies this
      ensures removed <==> exists t <- old(openTabs) :: !Resolves(w, t)
      ensures State() == Prune(old(State()), w)
    {
      NoOrphans(openTabs, w);
      PruneParts(State(), w);
      hide Filter;
      hide Resolves;
      hide Prune;
      hide Orphan;
      if openTabs == [] {
        return false;
      }
      var next, removedActive := FilterTabs(openTabs, Orphan(w), activeTabId);
      if |next| == |openTabs| {
        return false;
      }
      openTabs := next;
      if !removedActive {
        return true;
      }
      activeTabId := "";
      if |openTabs| > 0 {
        activeTabId := openTabs[|openTabs| - 1].id;
      }
      return true;
    }

    method RemoveOpenTabsForCollection(collection: string)
      modifies this
      ensures State() == RemoveCollection(old(State()), collection)
    {
      var next, _ := FilterTabs(openTabs, OfCollection(collection), activeTabId);
      openTabs := next;
      var nextClosed, _ := FilterTabs(closedTabs, OfCollection(collection), "");
      closedTabs := nextClosed;
      if next == [] {
        activeTabId := "";
        return;
      }
      var found := FindTab(activeTabId);
      if found.None? {
        activeTabId := next[0].id;
      }
    }

    method RemoveOpenTabsForRequests(collection: string, ids: set<string>, examples: bool)
      modifies this
      ensures State() == RemoveRequests(old(State()), collection, ids, examples)
    {
      if ids == {} {
        return;
      }
      DropTabs(OfRequests(collection, ids, examples));
      var nextClosed, _ := FilterTabs(closedTabs, OfRequests(collection, ids, examples), "");
      closedTabs := nextClosed;
      hide Drop;
    }

    method SyncResponseExampleTab(collection: string, item: string, exampleId: string, exampleName: string)
      modifies this
      ensures State() == SyncExample(old(State()), collection, item, exampleId, exampleName)
    {
      ghost var was := openTabs;
      ghost var synced := Synced(was, collection, item, exampleId, exampleName);
      for i := 0 to |openTabs|
        invariant |openTabs| == |was| && closedTabs == old(closedTabs) && activeTabId == old(activeTabId)
        invariant forall k :: i <= k < |was| ==> openTabs[k] == was[k]
        invariant forall k :: 0 <= k < i ==> openTabs[k] == synced[k]
      {
        if IsExample(collection, item, exampleId)(openTabs[i]) {
          openTabs := openTabs[i := AsExample(openTabs[i], collection, item, exampleId, exampleName)];
        }
      }
      assert openTabs == synced;
    }
  }
}
