// The collection runner: a two-level loop over iterations and requests, steered by what
// the sent requests and their scripts answer.

module CollectionRunner {
  import opened Text

  const JUMP_LIMIT: nat := 10000

  /** A request of the run's private copy; only http, graphql and grpc are supported. */
  datatype Item = Item(id: string, name: string, supported: bool)

  datatype Response = Response(cancelled: bool, error: bool, code: nat, failedTest: bool)

  /** What a script asked for with setNextRequest: nothing, null, or a request name. */
  datatype Next = NotSet | EndIteration | JumpTo(name: string)

  /** Everything one pass of the loop learns from outside: whether the run is cancelled
      before the send and after it, whether prompt variables are unresolved, and how the
      send went. */
  datatype Answer = Answer(
    cancelledBefore: bool, prompts: bool, sendFails: bool, cancelledAfter: bool,
    response: Option<Response>, skip: bool, stop: bool, next: Next)

  datatype Status = Passed | Failed | Skipped | Cancelled | Unrun

  /** A result row. The index stands for the item's id and name; the closing row of a
      cancelled run belongs to no item. */
  datatype Row = Row(item: Option<nat>, iteration: nat, status: Status)

  datatype Send = Send(iteration: nat, index: nat)

  datatype Config = Config(items: seq<Item>, iterations: nat, bail: bool)

  datatype Phase = Running | Finished | TooManyJumps

  /** The run between two passes. Passes counts those of the current iteration, clock all. */
  datatype Run = Run(
    iteration: nat, index: nat, jumps: nat, passes: nat, clock: nat,
    rows: seq<Row>, sends: seq<Send>, completed: nat, phase: Phase)

  const START: Run := Run(1, 0, 0, 0, 0, [], [], 0, Running)

  // --- one pass ---------------------------------------------------------------------------

  /** Rows carry their iteration only in a run of several. */
  function Stamp(c: Config, iteration: nat): nat {
    if c.iterations > 1 then iteration else 0
  }

  function FirstNamed(items: seq<Item>, name: string): (i: nat)
    ensures i <= |items|
    ensures i < |items| ==> items[i].name == name
    ensures forall j :: 0 <= j < i ==> items[j].name != name
  {
    if items == [] || items[0].name == name then 0 else 1 + FirstNamed(items[1..], name)
  }

  function StatusOf(a: Answer): Status {
    var sent :=
      if a.response.None? then Passed
      else if a.response.value.cancelled then Cancelled
      else if a.response.value.error || a.response.value.code >= 400 || a.response.value.failedTest then Failed
      else Passed;
    var cancelled := if a.cancelledAfter then Cancelled else sent;
    if a.skip && cancelled != Cancelled then Skipped else cancelled
  }

  function UnrunRows(c: Config, from: nat, iteration: nat): (rows: seq<Row>)
    requires from <= |c.items|
    ensures |rows| == |c.items| - from
    ensures forall k :: 0 <= k < |rows| ==> rows[k] == Row(Some(from + k), Stamp(c, iteration), Unrun)
    decreases |c.items| - from
  {
    if from == |c.items| then []
    else [Row(Some(from), Stamp(c, iteration), Unrun)] + UnrunRows(c, from + 1, iteration)
  }

  function Record(c: Config, s: Run, status: Status): Run {
    s.(rows := s.rows + [Row(Some(s.index), Stamp(c, s.iteration), status)])
  }

  function Bail(c: Config, s: Run): Run
    requires s.index < |c.items|
  {
    s.(rows := s.rows + UnrunRows(c, s.index + 1, s.iteration), phase := Finished)
  }

  function NextIteration(s: Run): Run {
    s.(completed := s.iteration, iteration := s.iteration + 1, index := 0, jumps := 0, passes := 0)
  }

  /** After a request was answered: where the run goes next. */
  function Steer(c: Config, s: Run, a: Answer): Run
    requires s.index < |c.items|
  {
    if a.stop then s.(phase := Finished)
    else if a.next.NotSet? then s.(index := s.index + 1)
    else
      var jumped := s.(jumps := s.jumps + 1);
      if jumped.jumps > JUMP_LIMIT then jumped.(phase := TooManyJumps)
      else if a.next.EndIteration? then NextIteration(jumped)
      else
        var target := FirstNamed(c.items, a.next.name);
        if target < |c.items| then jumped.(index := target) else jumped.(index := s.index + 1)
  }

  function Pass(c: Config, s: Run, a: Answer): Run
    requires s.index < |c.items|
  {
    var t := s.(clock := s.clock + 1, passes := s.passes + 1);
    if a.cancelledBefore then Record(c, t, Cancelled).(phase := Finished)
    else if !c.items[s.index].supported || a.prompts then Record(c, t, Skipped).(index := s.index + 1)
    else
      var u := t.(sends := s.sends + [Send(s.iteration, s.index)]);
      var status := if !a.sendFails then StatusOf(a) else if a.cancelledAfter then Cancelled else Failed;
      var r := Record(c, u, status);
      if status == Cancelled then r.(phase := Finished)
      else if c.bail && status == Failed then Bail(c, r)
      else if a.sendFails then r.(index := s.index + 1)
      else Steer(c, r, a)
  }

  /** One step of the flat machine. */
  function Step(c: Config, s: Run, answers: nat -> Answer): Run
    requires s.phase.Running?
  {
    if s.iteration > c.iterations then s.(phase := Finished)
    else if s.index >= |c.items| then NextIteration(s)
    else Pass(c, s, answers(s.clock))
  }

  ghost predicate Ok(c: Config, s: Run) {
    s.index <= |c.items| && (s.phase.Running? ==> s.jumps <= JUMP_LIMIT)
  }

  lemma StepOk(c: Config, s: Run, answers: nat -> Answer)
    requires s.phase.Running? && Ok(c, s)
    ensures Ok(c, Step(c, s, answers))
  {
  }

  /** Every run ends, whatever the scripts answer: the iterations left, then the jumps
      left, then the items left go down with each step. */
  function Complete(c: Config, s: Run, answers: nat -> Answer): Run
    requires Ok(c, s)
    decreases c.iterations + 1 - s.iteration, JUMP_LIMIT + 1 - s.jumps, |c.items| - s.index, if s.phase.Running? then 1 else 0
  {
    if !s.phase.Running? then s
    else
      StepOk(c, s, answers);
      Complete(c, Step(c, s, answers), answers)
  }

  // --- what every run keeps ---------------------------------------------------------------

  /** The most passes one iteration can take over n items. */
  function PassLimit(n: nat): nat {
    (JUMP_LIMIT + 1) * n
  }

  ghost predicate Bounded(c: Config, s: Run) {
    if s.phase.Running? then s.passes <= s.jumps * |c.items| + s.index else s.passes <= PassLimit(|c.items|)
  }

  /** How one pass moves the counters of its iteration. */
  lemma PassMoves(c: Config, s: Run, a: Answer)
    requires s.phase.Running? && Ok(c, s) && s.index < |c.items|
    ensures var t := Pass(c, s, a);
            || (t.passes == 0 && t.index == 0 && t.jumps == 0 && t.iteration == s.iteration + 1 && t.phase.Running?)
            || (t.passes == s.passes + 1 && t.iteration == s.iteration &&
                (t.phase.Running? ==> (t.jumps == s.jumps && t.index == s.index + 1) || t.jumps == s.jumps + 1))
    ensures Pass(c, s, a).clock == s.clock + 1
  {
  }

  lemma JumpsBound(jumps: nat, index: nat, n: nat)
    requires jumps <= JUMP_LIMIT && index < n
    ensures jumps * n + index + 1 <= (jumps + 1) * n
    ensures jumps * n + index + 1 <= PassLimit(n)
    ensures jumps * n + index + 1 <= jumps * n + (index + 1)
  {
    OneMore(jumps, n);
    Grows(jumps + 1, JUMP_LIMIT + 1, n);
  }

  lemma OneMore(a: nat, n: nat)
    ensures (a + 1) * n == a * n + n
  {
  }

  lemma Grows(a: nat, b: nat, n: nat)
    requires a <= b
    ensures a * n <= b * n
  {
    assert b * n == a * n + (b - a) * n;
  }

  lemma StepBounded(c: Config, s: Run, answers: nat -> Answer)
    requires s.phase.Running? && Ok(c, s) && Bounded(c, s)
    ensures Bounded(c, Step(c, s, answers))
  {
    var n := |c.items|;
    if s.iteration <= c.iterations && s.index < n {
      PassMoves(c, s, answers(s.clock));
      StepOk(c, s, answers);
      JumpsBound(s.jumps, s.index, n);
      var t := Pass(c, s, answers(s.clock));
      assert t.jumps == s.jumps + 1 ==> t.jumps * n == (s.jumps + 1) * n;
    } else if s.iteration > c.iterations {
      assert s.jumps * n <= JUMP_LIMIT * n;
    }
  }

  // --- rows --------------------------------------------------------------------------------

  predicate HasNo(rows: seq<Row>, status: Status) {
    forall i :: 0 <= i < |rows| ==> rows[i].status != status
  }

  /** The last row is the failure of the last request sent, and each later request of its
      iteration has one unrun row behind it, in order. */
  ghost predicate Bailed(c: Config, s: Run) {
    exists before: seq<Row> ::
      && s.index < |c.items|
      && s.rows == before + [Row(Some(s.index), Stamp(c, s.iteration), Failed)] + UnrunRows(c, s.index + 1, s.iteration)
      && HasNo(before, Failed) && HasNo(before, Unrun) && HasNo(before, Cancelled)
      && s.sends != [] && s.sends[|s.sends| - 1] == Send(s.iteration, s.index)
  }

  ghost predicate RowsOk(c: Config, s: Run) {
    && (s.phase.Running? || s.phase.TooManyJumps? ==> HasNo(s.rows, Cancelled) && HasNo(s.rows, Unrun) && (c.bail ==> HasNo(s.rows, Failed)))
    && (s.phase.Finished? ==>
          || (c.bail && Bailed(c, s))
          || (HasNo(s.rows, Unrun) && (c.bail ==> HasNo(s.rows, Failed))
              && (s.rows == [] || HasNo(s.rows[..|s.rows| - 1], Cancelled))))
  }

  /** One pass adds one row, of the request it was about, and after a failure with bail
      also the unrun rows; then, and after a cancelled row, the run is over. */
  lemma PassRows(c: Config, s: Run, a: Answer) returns (status: Status)
    requires s.phase.Running? && Ok(c, s) && s.index < |c.items|
    ensures status != Unrun
    ensures Pass(c, s, a).rows == s.rows + [Row(Some(s.index), Stamp(c, s.iteration), status)]
              + if c.bail && status == Failed then UnrunRows(c, s.index + 1, s.iteration) else []
    ensures status == Cancelled || (c.bail && status == Failed) ==> Pass(c, s, a).phase.Finished?
    ensures status == Failed ==> Pass(c, s, a).sends == s.sends + [Send(s.iteration, s.index)]
    ensures c.bail && status == Failed ==> Pass(c, s, a).index == s.index && Pass(c, s, a).iteration == s.iteration
  {
    status := if a.cancelledBefore then Cancelled
              else if !c.items[s.index].supported || a.prompts then Skipped
              else if !a.sendFails then StatusOf(a)
              else if a.cancelledAfter then Cancelled else Failed;
    assert forall rows: seq<Row> :: rows + [] == rows;
  }

  lemma AddRow(rows: seq<Row>, row: Row, status: Status)
    ensures HasNo(rows + [row], status) <==> HasNo(rows, status) && row.status != status
    ensures (rows + [row])[..|rows|] == rows
  {
    assert (rows + [row])[|rows|] == row;
    forall i | 0 <= i < |rows|
      ensures (rows + [row])[i] == rows[i]
    {
    }
  }

  lemma PassRowsOk(c: Config, s: Run, a: Answer)
    requires s.phase.Running? && Ok(c, s) && s.index < |c.items| && RowsOk(c, s)
    ensures RowsOk(c, Pass(c, s, a))
  {
    var status := PassRows(c, s, a);
    hide Pass;
    var t := Pass(c, s, a);
    var row := Row(Some(s.index), Stamp(c, s.iteration), status);
    AddRow(s.rows, row, Failed);
    AddRow(s.rows, row, Unrun);
    AddRow(s.rows, row, Cancelled);
    if c.bail && status == Failed {
      assert Bailed(c, t);
    } else {
      assert t.rows == s.rows + [row];
    }
  }

  ghost predicate Counted(c: Config, s: Run) {
    && 1 <= s.iteration <= c.iterations + 1
    && (s.iteration > c.iterations ==> s.passes == 0)
    && s.passes <= PassLimit(|c.items|)
    && s.clock <= (s.iteration - 1) * PassLimit(|c.items|) + s.passes
    && |s.sends| <= s.clock <= |s.rows| <= s.clock + |c.items|
  }

  lemma StepCounted(c: Config, s: Run, answers: nat -> Answer)
    requires s.phase.Running? && Ok(c, s) && Bounded(c, s) && Counted(c, s) && |s.rows| == s.clock
    ensures Counted(c, Step(c, s, answers))
    ensures Step(c, s, answers).phase.Running? ==> |Step(c, s, answers).rows| == Step(c, s, answers).clock
  {
    var limit := PassLimit(|c.items|);
    assert s.iteration * limit == (s.iteration - 1) * limit + limit;
    if s.iteration <= c.iterations && s.index < |c.items| {
      var status := PassRows(c, s, answers(s.clock));
      PassMoves(c, s, answers(s.clock));
      PassSends(c, s, answers(s.clock));
      JumpsBound(s.jumps, s.index, |c.items|);
      BailEnds(c, s, answers(s.clock), status);
      hide Pass;
      hide PassLimit;
    }
  }

  lemma PassSends(c: Config, s: Run, a: Answer)
    requires s.phase.Running? && Ok(c, s) && s.index < |c.items|
    ensures Pass(c, s, a).sends == s.sends || Pass(c, s, a).sends == s.sends + [Send(s.iteration, s.index)]
  {
  }

  lemma BailEnds(c: Config, s: Run, a: Answer, status: Status)
    requires s.phase.Running? && Ok(c, s) && s.index < |c.items|
    requires Pass(c, s, a).rows == s.rows + [Row(Some(s.index), Stamp(c, s.iteration), status)]
               + if c.bail && status == Failed then UnrunRows(c, s.index + 1, s.iteration) else []
    requires c.bail && status == Failed ==> Pass(c, s, a).phase.Finished?
    ensures Pass(c, s, a).phase.Running? ==> |Pass(c, s, a).rows| == |s.rows| + 1
    ensures |s.rows| + 1 <= |Pass(c, s, a).rows| <= |s.rows| + |c.items|
  {
  }

  ghost predicate Inv(c: Config, s: Run) {
    && Ok(c, s) && Bounded(c, s) && RowsOk(c, s) && Counted(c, s)
    && (s.phase.Running? ==> |s.rows| == s.clock)
  }

  lemma StepInv(c: Config, s: Run, answers: nat -> Answer)
    requires s.phase.Running? && Inv(c, s)
    ensures Inv(c, Step(c, s, answers))
  {
    StepOk(c, s, answers);
    StepBounded(c, s, answers);
    StepCounted(c, s, answers);
    if s.iteration <= c.iterations && s.index < |c.items| {
      PassRowsOk(c, s, answers(s.clock));
    } else if s.rows != [] {
      var n := |s.rows| - 1;
      assert s.rows == s.rows[..n] + [s.rows[n]];
      AddRow(s.rows[..n], s.rows[n], Cancelled);
    }
  }

  lemma {:induction false} CompleteInv(c: Config, s: Run, answers: nat -> Answer)
    requires Inv(c, s)
    ensures Inv(c, Complete(c, s, answers)) && !Complete(c, s, answers).phase.Running?
    decreases c.iterations + 1 - s.iteration, JUMP_LIMIT + 1 - s.jumps, |c.items| - s.index, if s.phase.Running? then 1 else 0
  {
    if s.phase.Running? {
      StepInv(c, s, answers);
      CompleteInv(c, Step(c, s, answers), answers);
    }
  }

  lemma RunInv(c: Config, answers: nat -> Answer)
    requires c.iterations >= 1
    ensures Inv(c, Complete(c, START, answers)) && !Complete(c, START, answers).phase.Running?
  {
    assert Inv(c, START);
    CompleteInv(c, START, answers);
  }

  /** The run after a number of steps. */
  function After(c: Config, s: Run, answers: nat -> Answer, steps: nat): Run {
    if steps == 0 then s
    else
      var t := After(c, s, answers, steps - 1);
      if t.phase.Running? then Step(c, t, answers) else t
  }

  lemma {:induction false} AfterInv(c: Config, s: Run, answers: nat -> Answer, steps: nat)
    requires Inv(c, s)
    ensures Inv(c, After(c, s, answers, steps))
  {
    if steps > 0 {
      AfterInv(c, s, answers, steps - 1);
      var t := After(c, s, answers, steps - 1);
      if t.phase.Running? {
        StepInv(c, t, answers);
      }
      hide Inv;
      hide Step;
    }
  }

  /** The sends of one iteration. */
  function SendsIn(sends: seq<Send>, iteration: nat): nat {
    if sends == [] then 0
    else SendsIn(sends[..|sends| - 1], iteration) + if sends[|sends| - 1].iteration == iteration then 1 else 0
  }

  ghost predicate Shared(c: Config, s: Run) {
    forall i: nat :: SendsIn(s.sends, i) <= if i < s.iteration then PassLimit(|c.items|) else if i == s.iteration then s.passes else 0
  }

  lemma JumpsInAll(jumps: nat, index: nat, n: nat)
    requires jumps <= JUMP_LIMIT && index <= n
    ensures jumps * n + index <= PassLimit(n)
    ensures index < n ==> jumps * n + index + 1 <= PassLimit(n)
  {
    if index < n {
      JumpsBound(jumps, index, n);
    } else {
      assert jumps * n <= JUMP_LIMIT * n;
      assert JUMP_LIMIT * n + n == (JUMP_LIMIT + 1) * n;
    }
  }

  lemma PassesBound(c: Config, s: Run)
    requires Inv(c, s)
    ensures s.passes <= PassLimit(|c.items|)
    ensures s.phase.Running? && s.index < |c.items| ==> s.passes + 1 <= PassLimit(|c.items|)
  {
    hide RowsOk;
    hide Counted;
    if s.phase.Running? {
      JumpsInAll(s.jumps, s.index, |c.items|);
      hide PassLimit;
    }
  }

  lemma StepShared(c: Config, s: Run, answers: nat -> Answer)
    requires Inv(c, s) && s.phase.Running? && Shared(c, s)
    ensures Shared(c, Step(c, s, answers))
  {
    PassesBound(c, s);
    hide PassLimit;
    hide Inv;
    var t := Step(c, s, answers);
    if s.iteration <= c.iterations && s.index < |c.items| {
      PassShares(c, s, answers(s.clock));
    }
    hide Step;
    hide Pass;
    forall i: nat
      ensures SendsIn(t.sends, i) <= if i < t.iteration then PassLimit(|c.items|) else if i == t.iteration then t.passes else 0
    {
    }
  }

  /** A pass sends at most once, in its own iteration, and counts itself there unless it
      ends the iteration. */
  lemma PassShares(c: Config, s: Run, a: Answer)
    requires s.phase.Running? && Ok(c, s) && s.index < |c.items|
    ensures var t := Pass(c, s, a);
            (t.iteration == s.iteration && t.passes == s.passes + 1) || (t.iteration == s.iteration + 1 && t.passes == 0)
    ensures forall i: nat :: SendsIn(Pass(c, s, a).sends, i) <= SendsIn(s.sends, i) + if i == s.iteration then 1 else 0
  {
    PassSends(c, s, a);
    PassMoves(c, s, a);
    hide Pass;
    var sent := s.sends + [Send(s.iteration, s.index)];
    assert sent[..|s.sends|] == s.sends;
  }

  lemma {:induction false} CompleteShared(c: Config, s: Run, answers: nat -> Answer)
    requires Inv(c, s) && Shared(c, s)
    ensures Shared(c, Complete(c, s, answers))
    decreases c.iterations + 1 - s.iteration, JUMP_LIMIT + 1 - s.jumps, |c.items| - s.index, if s.phase.Running? then 1 else 0
  {
    if s.phase.Running? {
      StepInv(c, s, answers);
      StepShared(c, s, answers);
      CompleteShared(c, Step(c, s, answers), answers);
    }
  }

  lemma {:induction false} CompleteIsAfter(c: Config, s: Run, answers: nat -> Answer) returns (steps: nat)
    requires Ok(c, s)
    ensures Complete(c, s, answers) == After(c, s, answers, steps)
    decreases c.iterations + 1 - s.iteration, JUMP_LIMIT + 1 - s.jumps, |c.items| - s.index, if s.phase.Running? then 1 else 0
  {
    steps := 0;
    if s.phase.Running? {
      StepOk(c, s, answers);
      var rest := CompleteIsAfter(c, Step(c, s, answers), answers);
      StepFirst(c, s, answers, rest);
      steps := rest + 1;
    }
  }

  lemma {:induction false} StepFirst(c: Config, s: Run, answers: nat -> Answer, steps: nat)
    requires s.phase.Running?
    ensures After(c, Step(c, s, answers), answers, steps) == After(c, s, answers, steps + 1)
  {
    hide Step;
    if steps > 0 {
      StepFirst(c, s, answers, steps - 1);
    } else {
      assert After(c, s, answers, 0) == s;
    }
  }

  /** Whatever the scripts answer, every iteration makes at most 10001 passes and sends per
      request, and so the run a bounded number of passes and rows in all. */
  lemma RunIsBounded(c: Config, answers: nat -> Answer)
    requires c.iterations >= 1
    ensures var r := Complete(c, START, answers);
            && (exists steps: nat :: r == After(c, START, answers, steps))
            && (forall steps: nat :: After(c, START, answers, steps).passes <= 10001 * |c.items|)
            && (forall i: nat :: SendsIn(r.sends, i) <= 10001 * |c.items|)
            && r.clock <= c.iterations * PassLimit(|c.items|)
            && |r.sends| <= r.clock <= |r.rows| <= r.clock + |c.items|
  {
    RunInv(c, answers);
    var r := Complete(c, START, answers);
    assert Inv(c, START);
    CompleteShared(c, START, answers);
    var last := CompleteIsAfter(c, START, answers);
    hide Complete;
    IterationsBound(r.iteration, c.iterations, PassLimit(|c.items|), r.passes);
    PassesBound(c, r);
    forall steps: nat
      ensures After(c, START, answers, steps).passes <= 10001 * |c.items|
    {
      AfterInv(c, START, answers, steps);
      PassesBound(c, After(c, START, answers, steps));
    }
    hide After;
  }

  lemma IterationsBound(iteration: nat, iterations: nat, limit: nat, passes: nat)
    requires 1 <= iteration <= iterations + 1 && passes <= limit && (iteration > iterations ==> passes == 0)
    ensures (iteration - 1) * limit + passes <= iterations * limit
  {
    if iteration <= iterations {
      assert (iteration - 1) * limit + limit == iteration * limit;
      assert iteration * limit <= iterations * limit;
    }
  }

  /** With bail on, a run that is not aborted either has no failed row, or ends in the bail
      shape: its one failed row is that of the last request sent, and each later index of
      that iteration has exactly one unrun row. Without bail there are no unrun rows. */
  lemma BailShape(c: Config, answers: nat -> Answer)
    requires c.iterations >= 1
    ensures var r := Complete(c, START, answers);
            if !c.bail then HasNo(r.rows, Unrun)
            else Bailed(c, r) || (HasNo(r.rows, Failed) && HasNo(r.rows, Unrun))
  {
    RunInv(c, answers);
    var r := Complete(c, START, answers);
    assert r.phase.Finished? || r.phase.TooManyJumps?;
  }

  /** A cancelled row ends the run: it can only be the last. */
  lemma CancelledIsLast(c: Config, answers: nat -> Answer, i: nat)
    requires c.iterations >= 1 && i < |Complete(c, START, answers).rows| - 1
    ensures Complete(c, START, answers).rows[i].status != Cancelled
  {
    RunInv(c, answers);
    var r := Complete(c, START, answers);
    if c.bail && Bailed(c, r) {
      var before: seq<Row> :|
        && r.rows == before + [Row(Some(r.index), Stamp(c, r.iteration), Failed)] + UnrunRows(c, r.index + 1, r.iteration)
        && HasNo(before, Failed) && HasNo(before, Unrun) && HasNo(before, Cancelled);
      assert i < |before| ==> r.rows[i] == before[i];
    } else {
      assert r.rows[..|r.rows| - 1][i] == r.rows[i];
    }
  }

  // --- an undisturbed run -------------------------------------------------------------------

  /** Nothing cancels, stops or steers the run. */
  predicate Undisturbed(a: Answer) {
    && !a.cancelledBefore && !a.cancelledAfter && !a.stop && a.next.NotSet?
    && (a.response.Some? ==> !a.response.value.cancelled)
  }

  function ItemsOf(rows: seq<Row>): seq<Option<nat>> {
    seq(|rows|, i requires 0 <= i < |rows| => rows[i].item)
  }

  /** The first k indices. */
  function UpTo(k: nat): seq<Option<nat>> {
    seq(k, i requires 0 <= i => Some(i))
  }

  /** All n indices in order, q times over. */
  function Rounds(n: nat, q: nat): seq<Option<nat>> {
    if q == 0 then [] else Rounds(n, q - 1) + UpTo(n)
  }

  ghost predicate InOrder(c: Config, s: Run) {
    && 1 <= s.iteration <= c.iterations + 1
    && (s.iteration == c.iterations + 1 ==> s.index == 0)
    && s.index <= |c.items| && s.jumps == 0 && !s.phase.TooManyJumps?
    && s.completed == s.iteration - 1
    && (s.phase.Finished? ==> s.iteration == c.iterations + 1)
    && ItemsOf(s.rows) == Rounds(|c.items|, s.iteration - 1) + UpTo(s.index)
  }

  lemma UndisturbedPass(c: Config, s: Run, a: Answer)
    requires s.phase.Running? && s.index < |c.items| && Ok(c, s) && !c.bail && Undisturbed(a)
    ensures var t := Pass(c, s, a);
            && t.index == s.index + 1 && t.iteration == s.iteration && t.jumps == s.jumps
            && t.completed == s.completed && t.phase.Running?
            && ItemsOf(t.rows) == ItemsOf(s.rows) + [Some(s.index)]
  {
    var status := PassRows(c, s, a);
  }

  lemma StepInOrder(c: Config, s: Run, answers: nat -> Answer)
    requires s.phase.Running? && !c.bail && InOrder(c, s) && Undisturbed(answers(s.clock))
    ensures InOrder(c, Step(c, s, answers))
  {
    var n := |c.items|;
    if s.iteration <= c.iterations && s.index < n {
      UndisturbedPass(c, s, answers(s.clock));
      assert UpTo(s.index) + [Some(s.index)] == UpTo(s.index + 1);
      hide Pass;
      assert Step(c, s, answers) == Pass(c, s, answers(s.clock));
    } else if s.iteration <= c.iterations {
      assert UpTo(0) == [];
    }
  }

  lemma {:induction false} CompleteInOrder(c: Config, s: Run, answers: nat -> Answer)
    requires !c.bail && InOrder(c, s) && forall k: nat :: Undisturbed(answers(k))
    ensures InOrder(c, Complete(c, s, answers)) && Complete(c, s, answers).phase.Finished?
    decreases c.iterations + 1 - s.iteration, JUMP_LIMIT + 1 - s.jumps, |c.items| - s.index, if s.phase.Running? then 1 else 0
  {
    if s.phase.Running? {
      StepOk(c, s, answers);
      StepInOrder(c, s, answers);
      CompleteInOrder(c, Step(c, s, answers), answers);
    }
  }

  /** An undisturbed run without bail gives every request exactly one row in each
      iteration, in order, and completes all its iterations. */
  lemma EachRequestOncePerIteration(c: Config, answers: nat -> Answer)
    requires c.iterations >= 1 && !c.bail && forall k: nat :: Undisturbed(answers(k))
    ensures var r := Complete(c, START, answers);
            r.phase.Finished? && r.completed == c.iterations && ItemsOf(r.rows) == Rounds(|c.items|, c.iterations)
  {
    assert ItemsOf([]) == Rounds(|c.items|, 0) + UpTo(0);
    CompleteInOrder(c, START, answers);
  }

  // --- the snapshot --------------------------------------------------------------------------

  function Count(rows: seq<Row>, status: Status): nat {
    if rows == [] then 0 else Count(rows[..|rows| - 1], status) + if rows[|rows| - 1].status == status then 1 else 0
  }

  /** Every row is counted under exactly one status: the snapshot's four counters and the
      unrun rows, which it counts nowhere, make up its total. */
  lemma {:induction false} CountsSumToTotal(rows: seq<Row>)
    ensures Count(rows, Passed) + Count(rows, Failed) + Count(rows, Skipped) + Count(rows, Cancelled) + Count(rows, Unrun)
            == |rows|
  {
    if rows != [] {
      CountsSumToTotal(rows[..|rows| - 1]);
    }
  }

  lemma {:induction false} CountNone(rows: seq<Row>, status: Status)
    requires HasNo(rows, status)
    ensures Count(rows, status) == 0
  {
    if rows != [] {
      CountNone(rows[..|rows| - 1], status);
    }
  }

  lemma {:induction false} CountAppend(a: seq<Row>, b: seq<Row>, status: Status)
    ensures Count(a + b, status) == Count(a, status) + Count(b, status)
    decreases |b|
  {
    if b == [] {
      assert a + b == a;
    } else {
      assert (a + b)[..|a + b| - 1] == a + b[..|b| - 1];
      CountAppend(a, b[..|b| - 1], status);
    }
  }

  datatype Snapshot = Snapshot(total: nat, passed: nat, failed: nat, skipped: nat, cancelled: nat,
                               rows: seq<Row>, iterations: nat, completed: nat)

  /** A bailed run reports exactly one failure. */
  lemma BailReportsOneFailure(c: Config, answers: nat -> Answer)
    requires c.iterations >= 1 && c.bail
    ensures var r := Complete(c, START, answers);
            Count(r.rows, Failed) == if Bailed(c, r) then 1 else 0
  {
    BailShape(c, answers);
    var r := Complete(c, START, answers);
    if Bailed(c, r) {
      var before: seq<Row> :|
        && r.rows == before + [Row(Some(r.index), Stamp(c, r.iteration), Failed)] + UnrunRows(c, r.index + 1, r.iteration)
        && HasNo(before, Failed);
      var one := [Row(Some(r.index), Stamp(c, r.iteration), Failed)];
      var unrun := UnrunRows(c, r.index + 1, r.iteration);
      CountAppend(before + one, unrun, Failed);
      CountAppend(before, one, Failed);
      CountNone(before, Failed);
      CountNone(unrun, Failed);
      assert one[..0] == [];
    } else {
      CountNone(r.rows, Failed);
    }
  }

  /** The rows with the closing row of a run that was cancelled outside any request. */
  function Closed(rows: seq<Row>, cancelled: bool): seq<Row> {
    if cancelled && (rows == [] || rows[|rows| - 1].status != Cancelled) then rows + [Row(None, 0, Cancelled)] else rows
  }

  /** The rows reported are those of the run, and hold a cancelled one exactly when the run
      was cancelled, in a request or outside; then it is the last. */
  lemma ClosedExactly(c: Config, answers: nat -> Answer, cancelled: bool)
    requires c.iterations >= 1
    ensures var rows := Complete(c, START, answers).rows;
            var all := Closed(rows, cancelled);
            && rows <= all <= rows + [Row(None, 0, Cancelled)]
            && HasNo(all[..if all == [] then 0 else |all| - 1], Cancelled)
            && ((all != [] && all[|all| - 1].status == Cancelled) <==> cancelled || !HasNo(rows, Cancelled))
  {
    var rows := Complete(c, START, answers).rows;
    forall i | 0 <= i < |rows| - 1
      ensures rows[i].status != Cancelled
    {
      CancelledIsLast(c, answers, i);
    }
  }

  // --- what the answers decide ---------------------------------------------------------------

  /** Where a pass stood: the iteration of its row, counted from 1, and the row's index. */
  datatype Place = Place(iteration: nat, index: nat)

  function PlaceOf(c: Config, row: Row): Place
    requires row.item.Some?
  {
    Place(if c.iterations > 1 then row.iteration else 1, row.item.value)
  }

  /** The row is about one of the run's requests. */
  predicate About(c: Config, row: Row) {
    row.item.Some? && row.item.value < |c.items|
  }

  predicate Sent(c: Config, row: Row, a: Answer)
    requires About(c, row)
  {
    !a.cancelledBefore && !a.prompts && c.items[row.item.value].supported
  }

  predicate Interrupted(a: Answer) {
    a.cancelledAfter || (!a.sendFails && a.response.Some? && a.response.value.cancelled)
  }

  /** The send came back, and nothing in the response speaks against it. */
  predicate Clean(a: Answer) {
    && !a.sendFails
    && (a.response.Some? ==> !a.response.value.error && a.response.value.code < 400 && !a.response.value.failedTest)
  }

  /** What the answer makes of the request's row. */
  predicate Deserved(c: Config, row: Row, a: Answer)
    requires About(c, row)
  {
    && (row.status == Cancelled <==> a.cancelledBefore || (Sent(c, row, a) && Interrupted(a)))
    && (row.status == Failed <==> Sent(c, row, a) && !Interrupted(a) && !Clean(a) && (a.sendFails || !a.skip))
    && (row.status == Passed <==> Sent(c, row, a) && !Interrupted(a) && Clean(a) && !a.skip)
    && row.status != Unrun
  }

  predicate Stops(c: Config, row: Row, a: Answer)
    requires About(c, row)
  {
    row.status == Cancelled || (c.bail && row.status == Failed) || (Sent(c, row, a) && !a.sendFails && a.stop)
  }

  predicate Steers(c: Config, row: Row, a: Answer)
    requires About(c, row)
  {
    Sent(c, row, a) && !a.sendFails && !a.next.NotSet?
  }

  /** The place behind another: the next request, or the first one of the next iteration. */
  function Behind(c: Config, here: Place): Place {
    if here.index + 1 < |c.items| then here.(index := here.index + 1) else Place(here.iteration + 1, 0)
  }

  /** Where the answer sends the run: the first request of the name asked for, the next
      iteration, or just on. */
  function NextPlace(c: Config, row: Row, a: Answer): Place
    requires About(c, row)
  {
    var here := PlaceOf(c, row);
    if !Steers(c, row, a) then Behind(c, here)
    else if a.next.EndIteration? then Place(here.iteration + 1, 0)
    else
      var target := FirstNamed(c.items, a.next.name);
      if target < |c.items| then here.(index := target) else Behind(c, here)
  }

  predicate AllAbout(c: Config, rows: seq<Row>) {
    forall k :: 0 <= k < |rows| ==> About(c, rows[k])
  }

  /** The steering answers since the iteration of the last row began. */
  function Jumps(c: Config, rows: seq<Row>, answers: nat -> Answer): nat
    requires AllAbout(c, rows)
  {
    if rows == [] then 0
    else
      var n := |rows| - 1;
      var here := if Steers(c, rows[n], answers(n)) then 1 else 0;
      if n > 0 && PlaceOf(c, rows[n - 1]).iteration == PlaceOf(c, rows[n]).iteration
      then Jumps(c, rows[..n], answers) + here
      else here
  }

  /** The requests sent, in order. */
  function SentOf(c: Config, rows: seq<Row>, answers: nat -> Answer): seq<Send>
    requires AllAbout(c, rows)
  {
    if rows == [] then []
    else
      var n := |rows| - 1;
      var here := PlaceOf(c, rows[n]);
      SentOf(c, rows[..n], answers) + if Sent(c, rows[n], answers(n)) then [Send(here.iteration, here.index)] else []
  }

  /** The k-th row has the status its answer deserves, in one of the run's iterations, which
      only a run of several notes. */
  predicate Told(c: Config, rows: seq<Row>, answers: nat -> Answer, k: nat)
    requires k < |rows|
  {
    && About(c, rows[k]) && Deserved(c, rows[k], answers(k)) && 1 <= PlaceOf(c, rows[k]).iteration <= c.iterations
    && (c.iterations == 1 ==> rows[k].iteration == 0)
  }

  /** The k-th row does not end the run, and leads to the one behind it. */
  predicate Linked(c: Config, rows: seq<Row>, answers: nat -> Answer, k: nat)
    requires k + 1 < |rows| && AllAbout(c, rows)
  {
    && !Stops(c, rows[k], answers(k)) && Jumps(c, rows[..k + 1], answers) <= JUMP_LIMIT
    && PlaceOf(c, rows[k + 1]) == NextPlace(c, rows[k], answers(k))
  }

  /** Rows as the answers decide them, from that of the first request on. */
  ghost predicate Decided(c: Config, rows: seq<Row>, answers: nat -> Answer) {
    && AllAbout(c, rows)
    && (rows != [] ==> PlaceOf(c, rows[0]) == Place(1, 0))
    && (forall k | 0 <= k < |rows| :: Told(c, rows, answers, k))
    && (forall k | 0 <= k < |rows| - 1 :: Linked(c, rows, answers, k))
  }

  lemma DecidedSnoc(c: Config, rows: seq<Row>, row: Row, answers: nat -> Answer)
    requires Decided(c, rows, answers)
    requires About(c, row) && Deserved(c, row, answers(|rows|)) && 1 <= PlaceOf(c, row).iteration <= c.iterations
    requires c.iterations == 1 ==> row.iteration == 0
    requires rows == [] ==> PlaceOf(c, row) == Place(1, 0)
    requires rows != [] ==>
               var n := |rows| - 1;
               && !Stops(c, rows[n], answers(n)) && PlaceOf(c, row) == NextPlace(c, rows[n], answers(n))
               && Jumps(c, rows, answers) <= JUMP_LIMIT
    ensures Decided(c, rows + [row], answers)
  {
    hide Deserved;
    hide Stops;
    hide NextPlace;
    hide PlaceOf;
    hide Jumps;
    hide About;
    var more := rows + [row];
    assert AllAbout(c, more);
    forall k | 0 <= k < |more|
      ensures Told(c, more, answers, k)
    {
      assert k < |rows| ==> Told(c, rows, answers, k);
    }
    forall k | 0 <= k < |more| - 1
      ensures Linked(c, more, answers, k)
    {
      assert more[..k + 1] == rows[..k + 1];
      if k < |rows| - 1 {
        assert Linked(c, rows, answers, k);
      } else {
        assert rows[..k + 1] == rows;
      }
    }
  }

  /** A running state and the rows behind it. */
  ghost predicate OnCourse(c: Config, s: Run, answers: nat -> Answer) {
    && c.iterations >= 1 && s.phase.Running? && |s.rows| == s.clock && Decided(c, s.rows, answers)
    && s.sends == SentOf(c, s.rows, answers)
    && s.index <= |c.items| && 1 <= s.iteration <= c.iterations + 1 && s.completed == s.iteration - 1
    && (s.rows == [] ==> c.items == [] || (s.iteration == 1 && s.index == 0 && s.jumps == 0))
    && (s.rows != [] ==>
          var n := |s.rows| - 1;
          var here := PlaceOf(c, s.rows[n]).iteration;
          && !Stops(c, s.rows[n], answers(n)) && Jumps(c, s.rows, answers) <= JUMP_LIMIT
          && (if s.index < |c.items| then Place(s.iteration, s.index) else Place(s.iteration + 1, 0))
             == NextPlace(c, s.rows[n], answers(n))
          && here <= s.iteration <= here + 1
          && s.jumps == if s.iteration == here then Jumps(c, s.rows, answers) else 0)
  }

  /** A run at its end. Rows behind the passes are those of requests not run. */
  ghost predicate Arrived(c: Config, r: Run, answers: nat -> Answer) {
    && r.clock <= |r.rows| && Decided(c, r.rows[..r.clock], answers) && r.sends == SentOf(c, r.rows[..r.clock], answers)
    && (forall k :: r.clock <= k < |r.rows| ==> r.rows[k].status == Unrun)
    && (r.clock == 0 ==> r.phase.Finished? && c.items == [] && r.completed == c.iterations)
    && (r.clock > 0 ==>
          var last, a := r.rows[r.clock - 1], answers(r.clock - 1);
          var stops := Stops(c, last, a);
          && (r.phase.TooManyJumps? <==> !stops && Jumps(c, r.rows[..r.clock], answers) > JUMP_LIMIT)
          && (r.phase.Finished? ==> stops || NextPlace(c, last, a).iteration > c.iterations)
          && (stops ==> r.phase.Finished?)
          && r.completed == if r.phase.Finished? && !stops then c.iterations else PlaceOf(c, last).iteration - 1)
  }

  lemma PassRow(c: Config, s: Run, a: Answer) returns (row: Row)
    requires s.phase.Running? && s.index < |c.items| && 1 <= s.iteration <= c.iterations
    ensures About(c, row) && Deserved(c, row, a) && PlaceOf(c, row) == Place(s.iteration, s.index)
    ensures c.iterations == 1 ==> row.iteration == 0
    ensures Pass(c, s, a).rows == s.rows + [row] + if c.bail && row.status == Failed then UnrunRows(c, s.index + 1, s.iteration) else []
    ensures Pass(c, s, a).clock == s.clock + 1
    ensures Pass(c, s, a).sends == s.sends + if Sent(c, row, a) then [Send(s.iteration, s.index)] else []
  {
    row := Pass(c, s, a).rows[|s.rows|];
    assert forall rows: seq<Row> :: rows + [] == rows;
  }

  /** Where a pass leaves the run, by its row and its answer. */
  ghost predicate Leads(c: Config, s: Run, t: Run, row: Row, a: Answer)
    requires About(c, row)
  {
    var jumps := s.jumps + if Steers(c, row, a) then 1 else 0;
    if Stops(c, row, a) then t.phase.Finished? && t.completed == s.completed
    else if jumps > JUMP_LIMIT then t.phase.TooManyJumps? && t.completed == s.completed
    else
      && t.phase.Running? && t.completed == t.iteration - 1 && t.index <= |c.items|
      && (if t.index < |c.items| then Place(t.iteration, t.index) else Place(t.iteration + 1, 0)) == NextPlace(c, row, a)
      && s.iteration <= t.iteration <= s.iteration + 1
      && t.jumps == if t.iteration == s.iteration then jumps else 0
  }

  lemma PassLeads(c: Config, s: Run, a: Answer, row: Row)
    requires s.phase.Running? && s.index < |c.items| && 1 <= s.iteration <= c.iterations
    requires s.jumps <= JUMP_LIMIT && s.completed == s.iteration - 1
    requires About(c, row) && Deserved(c, row, a) && PlaceOf(c, row) == Place(s.iteration, s.index)
    ensures Leads(c, s, Pass(c, s, a), row, a)
  {
  }

  lemma JumpsSnoc(c: Config, s: Run, row: Row, answers: nat -> Answer)
    requires OnCourse(c, s, answers) && s.index < |c.items| && s.iteration <= c.iterations
    requires About(c, row) && PlaceOf(c, row) == Place(s.iteration, s.index)
    ensures AllAbout(c, s.rows + [row])
    ensures Jumps(c, s.rows + [row], answers) == s.jumps + if Steers(c, row, answers(s.clock)) then 1 else 0
    ensures SentOf(c, s.rows + [row], answers)
            == s.sends + if Sent(c, row, answers(s.clock)) then [Send(s.iteration, s.index)] else []
  {
    hide NextPlace;
    hide Stops;
    hide Steers;
    hide Deserved;
    hide Sent;
    assert (s.rows + [row])[..|s.rows|] == s.rows;
  }

  lemma LedOn(c: Config, s: Run, t: Run, row: Row, answers: nat -> Answer)
    requires 1 <= s.iteration <= c.iterations && s.completed == s.iteration - 1
    requires About(c, row) && PlaceOf(c, row) == Place(s.iteration, s.index)
    requires Decided(c, s.rows + [row], answers)
    requires t.clock == |s.rows| + 1 && t.clock <= |t.rows| && t.rows[..t.clock] == s.rows + [row]
    requires t.phase.Running? ==> t.rows == s.rows + [row]
    requires forall k :: t.clock <= k < |t.rows| ==> t.rows[k].status == Unrun
    requires Jumps(c, s.rows + [row], answers) == s.jumps + if Steers(c, row, answers(|s.rows|)) then 1 else 0
    requires Leads(c, s, t, row, answers(|s.rows|)) && t.sends == SentOf(c, s.rows + [row], answers)
    ensures if t.phase.Running? then OnCourse(c, t, answers) else Arrived(c, t, answers)
  {
    hide Decided;
    hide Jumps;
    hide NextPlace;
    hide Steers;
    hide Stops;
    hide PlaceOf;
    hide SentOf;
    var rows := s.rows + [row];
    assert rows[|rows| - 1] == row;
    assert t.rows[t.clock - 1] == t.rows[..t.clock][t.clock - 1] == row;
  }

  lemma PassStays(c: Config, s: Run, answers: nat -> Answer)
    requires OnCourse(c, s, answers) && Ok(c, s) && s.index < |c.items| && s.iteration <= c.iterations
    ensures var t := Pass(c, s, answers(s.clock));
            if t.phase.Running? then OnCourse(c, t, answers) else Arrived(c, t, answers)
  {
    var a := answers(s.clock);
    var t := Pass(c, s, a);
    var row := PassRow(c, s, a);
    PassLeads(c, s, a, row);
    JumpsSnoc(c, s, row, answers);
    hide Pass;
    hide Jumps;
    hide NextPlace;
    hide Steers;
    hide Deserved;
    hide PlaceOf;
    hide Decided;
    hide SentOf;
    hide Sent;
    DecidedSnoc(c, s.rows, row, answers);
    assert t.rows[..t.clock] == s.rows + [row];
    LedOn(c, s, t, row, answers);
  }

  lemma StepStays(c: Config, s: Run, answers: nat -> Answer)
    requires OnCourse(c, s, answers) && Ok(c, s)
    ensures var t := Step(c, s, answers);
            if t.phase.Running? then OnCourse(c, t, answers) else Arrived(c, t, answers)
  {
    if s.iteration <= c.iterations && s.index < |c.items| {
      PassStays(c, s, answers);
    } else {
      hide Jumps;
      hide Steers;
      hide Stops;
      hide Deserved;
      assert s.rows[..s.clock] == s.rows;
    }
  }

  lemma {:induction false} CompleteArrives(c: Config, s: Run, answers: nat -> Answer)
    requires Ok(c, s)
    requires if s.phase.Running? then OnCourse(c, s, answers) else Arrived(c, s, answers)
    ensures Arrived(c, Complete(c, s, answers), answers)
    decreases c.iterations + 1 - s.iteration, JUMP_LIMIT + 1 - s.jumps, |c.items| - s.index, if s.phase.Running? then 1 else 0
  {
    hide OnCourse;
    hide Arrived;
    if s.phase.Running? {
      StepOk(c, s, answers);
      StepStays(c, s, answers);
      CompleteArrives(c, Step(c, s, answers), answers);
    }
  }

  /** The answers decide the whole run: every row's status, which requests are sent, which
      request each next row is about, when the run stops, and when it jumped too often. */
  lemma RunIsDecided(c: Config, answers: nat -> Answer)
    requires c.iterations >= 1
    ensures Arrived(c, Complete(c, START, answers), answers)
  {
    CompleteArrives(c, START, answers);
  }

  lemma {:induction false} CountAll(rows: seq<Row>, status: Status)
    requires forall k :: 0 <= k < |rows| ==> rows[k].status == status
    ensures Count(rows, status) == |rows|
  {
    if rows != [] {
      CountAll(rows[..|rows| - 1], status);
    }
  }

  /** A run of supported requests that are all sent and answered cleanly passes every row. */
  lemma CleanRunPasses(c: Config, answers: nat -> Answer)
    requires c.iterations >= 1 && forall i :: 0 <= i < |c.items| ==> c.items[i].supported
    requires forall k: nat :: Clean(answers(k)) && !Interrupted(answers(k)) && !answers(k).cancelledBefore
                              && !answers(k).prompts && !answers(k).skip
    ensures var r := Complete(c, START, answers);
            Count(r.rows, Passed) == |r.rows|
  {
    RunIsDecided(c, answers);
    BailShape(c, answers);
    if c.bail {
      BailReportsOneFailure(c, answers);
    }
    var r := Complete(c, START, answers);
    hide Complete;
    forall k | 0 <= k < |r.rows|
      ensures r.rows[k].status == if k < r.clock then Passed else Unrun
    {
      if k < r.clock {
        assert r.rows[..r.clock][k] == r.rows[k];
        assert Told(c, r.rows[..r.clock], answers, k);
      }
    }
    CountNone(r.rows, Failed);
    CountAll(r.rows, Passed);
  }

  /** With bail the run ends with the first pass that failed. */
  lemma BailsAtFirstFailure(c: Config, answers: nat -> Answer, k: nat)
    requires c.iterations >= 1 && c.bail
    requires var r, a := Complete(c, START, answers), answers(k);
             && k < r.clock <= |r.rows| && About(c, r.rows[k]) && Sent(c, r.rows[k], a)
             && !Interrupted(a) && !Clean(a) && (a.sendFails || !a.skip)
    ensures var r := Complete(c, START, answers);
            k == r.clock - 1 && r.phase.Finished?
  {
    RunIsDecided(c, answers);
    var r := Complete(c, START, answers);
    hide Complete;
    hide Jumps;
    hide NextPlace;
    hide PlaceOf;
    assert r.rows[..r.clock][k] == r.rows[k];
    assert Told(c, r.rows[..r.clock], answers, k);
    forall j | 0 <= j < r.clock - 1
      ensures !Stops(c, r.rows[j], answers(j))
    {
      assert r.rows[..r.clock][j] == r.rows[j];
      assert Linked(c, r.rows[..r.clock], answers, j);
    }
  }

  // --- as the source runs it -------------------------------------------------------------------

  /** First occurrence wins. */
  method NameIndex(items: seq<Item>) returns (byName: map<string, nat>)
    ensures forall name :: name in byName <==> FirstNamed(items, name) < |items|
    ensures forall name :: name in byName ==> byName[name] == FirstNamed(items, name)
  {
    byName := map[];
    for i := 0 to |items|
      invariant forall name :: name in byName <==> FirstNamed(items, name) < i
      invariant forall name :: name in byName ==> byName[name] == FirstNamed(items, name)
    {
      if items[i].name !in byName {
        byName := byName[items[i].name := i];
      }
    }
  }

  function SelectedIDs(ids: seq<string>): set<string> {
    set id | id in ids && Trim(id) != "" :: Trim(id)
  }

  /** The selected items in collection order; no selection at all keeps everything. */
  function Selected(items: seq<Item>, ids: set<string>): seq<Item> {
    if items == [] then []
    else
      var n := |items| - 1;
      Selected(items[..n], ids) + if items[n].id in ids then [items[n]] else []
  }

  method FilterItems(items: seq<Item>, selection: Option<seq<string>>) returns (out: seq<Item>)
    ensures selection.None? ==> out == items
    ensures selection.Some? ==> out == Selected(items, SelectedIDs(selection.value))
  {
    if selection.None? {
      return items;
    }
    var selected := SelectedIDs(selection.value);
    out := [];
    for i := 0 to |items|
      invariant out == Selected(items[..i], selected)
    {
      assert items[..i + 1][..i] == items[..i];
      if items[i].id in selected {
        out := out + [items[i]];
      }
    }
    assert items[..|items|] == items;
  }

  /** What an item must do to be kept. */
  lemma {:induction false} SelectedExactly(items: seq<Item>, ids: seq<string>, item: Item)
    ensures item in Selected(items, SelectedIDs(ids)) <==>
            item in items && item.id != "" && exists id :: id in ids && Trim(id) == item.id
  {
    if items != [] {
      var n := |items| - 1;
      SelectedExactly(items[..n], ids, item);
      assert items == items[..n] + [items[n]];
    }
  }

  lemma {:induction false} SelectedInOrder(a: seq<Item>, b: seq<Item>, ids: set<string>)
    ensures Selected(a + b, ids) == Selected(a, ids) + Selected(b, ids)
    decreases |b|
  {
    if b == [] {
      assert a + b == a;
    } else {
      assert (a + b)[..|a + b| - 1] == a + b[..|b| - 1];
      SelectedInOrder(a, b[..|b| - 1], ids);
    }
  }

  method AppendUnrun(c: Config, rows: seq<Row>, from: nat, iteration: nat) returns (out: seq<Row>)
    requires from <= |c.items|
    ensures out == rows + UnrunRows(c, from, iteration)
  {
    out := rows;
    for i := from to |c.items|
      invariant out == rows + UnrunRows(c, from, iteration)[..i - from]
    {
      out := out + [Row(Some(i), Stamp(c, iteration), Unrun)];
    }
  }

  lemma CompleteStep(c: Config, s: Run, answers: nat -> Answer)
    requires s.phase.Running? && Ok(c, s)
    ensures Ok(c, Step(c, s, answers)) && Complete(c, s, answers) == Complete(c, Step(c, s, answers), answers)
  {
    StepOk(c, s, answers);
  }

  lemma CompleteDone(c: Config, s: Run, answers: nat -> Answer)
    requires Ok(c, s) && !s.phase.Running?
    ensures Complete(c, s, answers) == s
  {
  }

  /** How a pass leaves the inner loop's body: round again, out of this iteration, or out of
      the run. */
  datatype Flow = Again | BreakInner | BreakRun

  /** One turn of the inner loop. */
  method OnePass(c: Config, byName: map<string, nat>, s: Run, a: Answer) returns (t: Run, flow: Flow)
    requires s.phase.Running? && s.index < |c.items|
    requires forall name :: name in byName <==> FirstNamed(c.items, name) < |c.items|
    requires forall name :: name in byName ==> byName[name] == FirstNamed(c.items, name)
    ensures Pass(c, s, a) == if flow == BreakInner then NextIteration(t) else t
    ensures flow == BreakRun <==> !t.phase.Running?
    ensures flow == Again ==> t.iteration == s.iteration && (t.jumps > s.jumps || (t.jumps == s.jumps && t.index > s.index))
    ensures flow == BreakInner ==> t.iteration == s.iteration
  {
    var item, stamp := c.items[s.index], Stamp(c, s.iteration);
    t := s.(clock := s.clock + 1, passes := s.passes + 1);
    if a.cancelledBefore {
      return t.(rows := t.rows + [Row(Some(s.index), stamp, Cancelled)], phase := Finished), BreakRun;
    }
    if !item.supported || a.prompts {
      return t.(rows := t.rows + [Row(Some(s.index), stamp, Skipped)], index := s.index + 1), Again;
    }
    t := t.(sends := t.sends + [Send(s.iteration, s.index)]);
    if a.sendFails {
      if a.cancelledAfter {
        return t.(rows := t.rows + [Row(Some(s.index), stamp, Cancelled)], phase := Finished), BreakRun;
      }
      var rows := t.rows + [Row(Some(s.index), stamp, Failed)];
      if c.bail {
        rows := AppendUnrun(c, rows, s.index + 1, s.iteration);
        return t.(rows := rows, phase := Finished), BreakRun;
      }
      return t.(rows := rows, index := s.index + 1), Again;
    }
    var status := StatusOf(a);
    t := t.(rows := t.rows + [Row(Some(s.index), stamp, status)]);
    if status == Cancelled {
      return t.(phase := Finished), BreakRun;
    }
    if c.bail && status == Failed {
      var rows := AppendUnrun(c, t.rows, s.index + 1, s.iteration);
      return t.(rows := rows, phase := Finished), BreakRun;
    }
    if a.stop {
      return t.(phase := Finished), BreakRun;
    }
    if !a.next.NotSet? {
      t := t.(jumps := t.jumps + 1);
      if t.jumps > JUMP_LIMIT {
        return t.(phase := TooManyJumps), BreakRun;
      }
      if a.next.EndIteration? {
        return t, BreakInner;
      }
      if a.next.name in byName {
        return t.(index := byName[a.next.name]), Again;
      }
    }
    return t.(index := s.index + 1), Again;
  }

  /** The nested loops: the outer over iterations, the inner over requests. They visit
      exactly the states of the flat machine. */
  method RunLoops(c: Config, answers: nat -> Answer) returns (r: Run)
    requires c.iterations >= 1
    ensures r == Complete(c, START, answers)
  {
    var byName := NameIndex(c.items);
    r := START;
    assert Ok(c, r);
    hide Complete;
    hide Pass;
    label iterations:
    while r.iteration <= c.iterations
      invariant r.phase.Running? && r.index == 0
      invariant Ok(c, r) && Complete(c, r, answers) == Complete(c, START, answers)
      decreases c.iterations + 1 - r.iteration
    {
      ghost var thisIteration, ended := r.iteration, false;
      while r.index < |c.items|
        invariant r.phase.Running? && r.iteration == thisIteration && !ended
        invariant Ok(c, r) && Complete(c, r, answers) == Complete(c, START, answers)
        decreases JUMP_LIMIT + 1 - r.jumps, |c.items| - r.index
      {
        CompleteStep(c, r, answers);
        var next, flow := OnePass(c, byName, r, answers(r.clock));
        r := next;
        if flow == BreakRun {
          break iterations;
        }
        if flow == BreakInner {
          ended := true;
          break;
        }
      }
      if !ended {
        CompleteStep(c, r, answers);
      }
      r := NextIteration(r);
    }
    if r.phase.Running? {
      CompleteStep(c, r, answers);
      r := r.(phase := Finished);
    }
    CompleteDone(c, r, answers);
  }

  datatype Result = Aborted | Done(snapshot: Snapshot, sends: seq<Send>)

  /** Iterations are reported only of a run of several. */
  ghost predicate Reports(c: Config, s: Snapshot, rows: seq<Row>, completed: nat) {
    && s.total == |rows| && s.rows == rows
    && s.passed == Count(rows, Passed) && s.failed == Count(rows, Failed)
    && s.skipped == Count(rows, Skipped) && s.cancelled == Count(rows, Cancelled)
    && s.iterations == (if c.iterations > 1 then c.iterations else 0)
    && s.completed == if c.iterations > 1 then completed else 0
  }

  /** A whole run: too many jumps report an error and leave no snapshot. */
  method RunCollection(c: Config, answers: nat -> Answer, cancelledAtEnd: bool) returns (result: Result)
    requires c.iterations >= 1
    ensures var r := Complete(c, START, answers);
            if r.phase.TooManyJumps? then result == Aborted
            else result.Done? && result.sends == r.sends && Reports(c, result.snapshot, Closed(r.rows, cancelledAtEnd), r.completed)
  {
    var r := RunLoops(c, answers);
    if r.phase.TooManyJumps? {
      return Aborted;
    }
    var rows := Closed(r.rows, cancelledAtEnd);
    var passed, failed, skipped, cancelled := 0, 0, 0, 0;
    for i := 0 to |rows|
      invariant passed == Count(rows[..i], Passed) && failed == Count(rows[..i], Failed)
      invariant skipped == Count(rows[..i], Skipped) && cancelled == Count(rows[..i], Cancelled)
    {
      assert rows[..i + 1][..i] == rows[..i];
      match rows[i].status
      case Passed => passed := passed + 1;
      case Failed => failed := failed + 1;
      case Skipped => skipped := skipped + 1;
      case Cancelled => cancelled := cancelled + 1;
      case Unrun =>
    }
    assert rows[..|rows|] == rows;
    var many := c.iterations > 1;
    return Done(Snapshot(|rows|, passed, failed, skipped, cancelled, rows,
                         if many then c.iterations else 0, if many then r.completed else 0), r.sends);
  }
}
