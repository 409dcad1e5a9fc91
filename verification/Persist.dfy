// The coalesced persistence protocol: mutators, one background writer per
// generation, stoppers and the synchronous flush, as a transition system whose
// steps are the critical sections of the two locks (the state lock, and the leaf
// lock around the persist fields).

module PersistProtocol {
  import opened Text

  type Error = string

  /** Where one generation of the background writer is.
      Wrote is after its write, before it has taken the leaf lock again. */
  datatype WriterPC = Waiting | Claimed | Writing | Wrote(err: Option<Error>) | Leaving | Exited

  /** A generation owns its stop and done channels; closing one twice would panic. */
  datatype Writer = Writer(pc: WriterPC, stopCloses: nat, doneCloses: nat)

  /** Everything the leaf lock guards. The newest generation is the last writer. */
  datatype Fields = Fields(
    dirty: bool, running: bool, stopped: bool,
    failures: nat, parked: Option<Error>, writers: seq<Writer>)

  // ---------------------------------------------------------------------------
  // The critical sections of the leaf lock
  // ---------------------------------------------------------------------------

  function MarkDirtySection(f: Fields): Fields {
    var g := f.(dirty := true, parked := None);
    if f.running || f.stopped then g
    else g.(running := true, writers := f.writers + [Writer(Waiting, 0, 0)])
  }

  function SetPC(f: Fields, gen: nat, pc: WriterPC): Fields
    requires gen < |f.writers|
  {
    f.(writers := f.writers[gen := f.writers[gen].(pc := pc)])
  }

  /** The timer fired: leave, or clear the flag and claim the write. */
  function ClaimSection(f: Fields, gen: nat): Fields
    requires gen < |f.writers|
  {
    if f.stopped || !f.dirty then LeaveSection(f, gen)
    else SetPC(f.(dirty := false), gen, Claimed)
  }

  function LeaveSection(f: Fields, gen: nat): Fields
    requires gen < |f.writers|
  {
    SetPC(f.(running := false), gen, Leaving)
  }

  function SettleSection(f: Fields, gen: nat, err: Option<Error>): Fields
    requires gen < |f.writers|
  {
    var g := if err.Some? then f.(dirty := true, failures := f.failures + 1, parked := err)
             else f.(failures := 0);
    SetPC(g, gen, Waiting)
  }

  /** The deferred close of the done channel. */
  function CloseDone(f: Fields, gen: nat): Fields
    requires gen < |f.writers|
  {
    var w := f.writers[gen];
    f.(writers := f.writers[gen := w.(pc := Exited, doneCloses := w.doneCloses + 1)])
  }

  function StopSection(f: Fields): Fields {
    if f.stopped then f
    else if f.writers == [] then f.(stopped := true)
    else
      var last := |f.writers| - 1;
      var w := f.writers[last];
      f.(stopped := true, writers := f.writers[last := w.(stopCloses := w.stopCloses + 1)])
  }

  function FlushClaimSection(f: Fields): Fields {
    f.(dirty := false, parked := None)
  }

  function FlushRestoreSection(f: Fields): Fields {
    f.(dirty := true)
  }

  // ---------------------------------------------------------------------------
  // The transition system
  // ---------------------------------------------------------------------------

  /** Who holds the state lock. A mutator's base is the memory content its marks and
      successful synchronous writes have accounted for. */
  datatype Holder =
    | Free
    | Mutator(base: nat)
    | BackgroundWrite(gen: nat)
    | Flush(at: FlushPC)

  datatype FlushPC = Entered | ClaimedDirty | WriteFailed | Finished(ok: bool)

  /** A call of stopPersistWriter: the done channel it captured, then its return. */
  datatype StopCall = Awaiting(done: Option<nat>) | Returned

  /** Contents of memory and of the state file are version numbers. */
  datatype State = State(
    f: Fields, mu: Holder, memory: nat, disk: nat, revision: nat, stops: seq<StopCall>)

  datatype Action =
    | Lock | Mutate(content: nat) | MarkDirty | PersistSync(err: Option<Error>) | Unlock
    | Tick(gen: nat) | SeeStop(gen: nat) | TakeLock(gen: nat)
    | Write(gen: nat, err: Option<Error>) | Settle(gen: nat) | Close(gen: nat)
    | FlushLock | FlushClaim | FlushWrite(err: Option<Error>) | FlushRestore | FlushUnlock
    | StopRequest | StopReturn(call: nat)

  function Init(content: nat): State {
    State(Fields(false, false, false, 0, None, []), Free, content, content, 0, [])
  }

  predicate WriterAt(s: State, gen: nat, pc: WriterPC) {
    gen < |s.f.writers| && s.f.writers[gen].pc == pc
  }

  predicate Enabled(s: State, a: Action) {
    match a
    case Lock => s.mu.Free?
    case Mutate(_) => s.mu.Mutator?
    case MarkDirty => s.mu.Mutator?
    case PersistSync(_) => s.mu.Mutator?
    case Unlock => s.mu.Mutator?
    case Tick(g) => WriterAt(s, g, Waiting)
    case SeeStop(g) => WriterAt(s, g, Waiting) && s.f.writers[g].stopCloses > 0
    case TakeLock(g) => WriterAt(s, g, Claimed) && s.mu.Free?
    case Write(g, _) => WriterAt(s, g, Writing) && s.mu == BackgroundWrite(g)
    case Settle(g) => g < |s.f.writers| && s.f.writers[g].pc.Wrote?
    case Close(g) => WriterAt(s, g, Leaving)
    case FlushLock => s.mu.Free?
    case FlushClaim => s.mu == Flush(Entered)
    case FlushWrite(_) => s.mu == Flush(ClaimedDirty)
    case FlushRestore => s.mu == Flush(WriteFailed)
    case FlushUnlock => s.mu.Flush? && s.mu.at.Finished?
    case StopRequest => true
    case StopReturn(i) =>
      i < |s.stops| && s.stops[i].Awaiting? &&
      (s.stops[i].done.Some? ==> WriterAt(s, s.stops[i].done.value, Exited))
  }

  /** The state file after a write: atomically the memory content, or untouched. */
  function DiskAfter(s: State, err: Option<Error>): nat {
    if err.None? then s.memory else s.disk
  }

  function Step(s: State, a: Action): State
    requires Enabled(s, a)
  {
    match a
    case Lock => s.(mu := Mutator(s.memory))
    case Mutate(v) => s.(memory := v)
    case MarkDirty =>
      s.(f := MarkDirtySection(s.f), revision := s.revision + 1, mu := Mutator(s.memory))
    case PersistSync(err) =>
      s.(revision := s.revision + 1, disk := DiskAfter(s, err),
         mu := if err.None? then Mutator(s.memory) else s.mu)
    case Unlock => s.(mu := Free)
    case Tick(g) => s.(f := ClaimSection(s.f, g))
    case SeeStop(g) => s.(f := LeaveSection(s.f, g))
    case TakeLock(g) => s.(f := SetPC(s.f, g, Writing), mu := BackgroundWrite(g))
    case Write(g, err) => s.(f := SetPC(s.f, g, Wrote(err)), mu := Free, disk := DiskAfter(s, err))
    case Settle(g) => s.(f := SettleSection(s.f, g, s.f.writers[g].pc.err))
    case Close(g) => s.(f := CloseDone(s.f, g))
    case FlushLock => s.(mu := Flush(Entered))
    case FlushClaim =>
      s.(f := FlushClaimSection(s.f), mu := Flush(if s.f.dirty then ClaimedDirty else Finished(true)))
    case FlushWrite(err) =>
      s.(disk := DiskAfter(s, err), mu := Flush(if err.None? then Finished(true) else WriteFailed))
    case FlushRestore => s.(f := FlushRestoreSection(s.f), mu := Flush(Finished(false)))
    case FlushUnlock => s.(mu := Free)
    case StopRequest =>
      s.(f := StopSection(s.f),
         stops := s.stops + [Awaiting(CurrentDone(s.f))])
    case StopReturn(i) => s.(stops := s.stops[i := Returned])
  }

  /** Some(state) after the actions, None if one of them was not enabled. */
  function Run(s: State, acts: seq<Action>): Option<State>
    decreases |acts|
  {
    if acts == [] then Some(s)
    else if !Enabled(s, acts[0]) then None
    else Run(Step(s, acts[0]), acts[1..])
  }

  ghost predicate Reachable(s: State) {
    exists content: nat, acts: seq<Action> :: Run(Init(content), acts) == Some(s)
  }

  // ---------------------------------------------------------------------------
  // The invariant
  // ---------------------------------------------------------------------------

  /** A writer that cleared the flag and has not yet reported how its write went,
      unless that write is already known to have landed. */
  predicate Pending(pc: WriterPC) {
    pc == Claimed || pc == Writing || (pc.Wrote? && pc.err.Some?)
  }

  predicate Live(pc: WriterPC) {
    pc == Waiting || pc == Claimed || pc == Writing || pc.Wrote?
  }

  predicate PendingWriter(s: State) {
    s.f.writers != [] && Pending(s.f.writers[|s.f.writers| - 1].pc)
  }

  predicate PendingFlush(s: State) {
    s.mu == Flush(ClaimedDirty) || s.mu == Flush(WriteFailed)
  }

  /** The content that ought to reach the disk: a mutator in mid-section answers only
      for what it has marked. */
  function Accounted(s: State): nat {
    if s.mu.Mutator? then s.mu.base else s.memory
  }

  /** Nobody will write what ought to reach the disk. */
  predicate Uncovered(s: State) {
    s.disk != Accounted(s) && !s.f.dirty && !PendingWriter(s) && !PendingFlush(s)
  }

  /** At most one generation is alive: the newest, and exactly while running. */
  ghost predicate OneWriter(s: State) {
    var ws := s.f.writers;
    && (forall i :: 0 <= i < |ws| - 1 ==> !Live(ws[i].pc))
    && (s.f.running <==> ws != [] && Live(ws[|ws| - 1].pc))
    && (forall i :: 0 <= i < |ws| ==> (ws[i].pc == Writing <==> s.mu == BackgroundWrite(i)))
    && (s.mu.BackgroundWrite? ==> s.mu.gen < |ws|)
  }

  /** Each stop channel is closed at most once, and each done channel exactly on exit. */
  ghost predicate Channels(s: State) {
    var ws := s.f.writers;
    forall i :: 0 <= i < |ws| ==>
      && ws[i].stopCloses == (if s.f.stopped && i == |ws| - 1 then 1 else 0)
      && ws[i].doneCloses == (if ws[i].pc == Exited then 1 else 0)
  }

  /** The done channel a stopper captures. */
  function CurrentDone(f: Fields): Option<nat> {
    if f.writers == [] then None else Some(|f.writers| - 1)
  }

  predicate LastExited(f: Fields) {
    f.writers == [] || f.writers[|f.writers| - 1].pc == Exited
  }

  predicate StopCallOk(f: Fields, call: StopCall) {
    f.stopped && (if call.Awaiting? then call.done == CurrentDone(f) else LastExited(f))
  }

  ghost predicate Stops(s: State) {
    forall i :: 0 <= i < |s.stops| ==> StopCallOk(s.f, s.stops[i])
  }

  ghost predicate Inv(s: State) {
    OneWriter(s) && Channels(s) && Stops(s)
  }

  predicate WriterStep(a: Action) {
    a.Tick? || a.SeeStop? || a.TakeLock? || a.Write? || a.Settle? || a.Close?
  }

  lemma StepKeepsOneWriter(s: State, a: Action)
    requires OneWriter(s) && Enabled(s, a)
    ensures OneWriter(Step(s, a))
  {
    if WriterStep(a) {
      WriterStepKeepsOneWriter(s, a);
    } else {
      OtherStepKeepsOneWriter(s, a);
    }
  }

  lemma WriterStepKeepsOneWriter(s: State, a: Action)
    requires OneWriter(s) && Enabled(s, a) && WriterStep(a)
    ensures OneWriter(Step(s, a))
  {
    match a
    case Tick(g) =>
    case SeeStop(g) =>
    case TakeLock(g) =>
    case Write(g, err) =>
    case Settle(g) =>
    case Close(g) =>
  }

  lemma OtherStepKeepsOneWriter(s: State, a: Action)
    requires OneWriter(s) && Enabled(s, a) && !WriterStep(a)
    ensures OneWriter(Step(s, a))
  {
    match a
    case MarkDirty =>
    case StopRequest =>
    case _ =>
  }

  lemma StepKeepsChannels(s: State, a: Action)
    requires OneWriter(s) && Channels(s) && Enabled(s, a)
    ensures Channels(Step(s, a))
  {
    if WriterStep(a) {
      WriterStepKeepsChannels(s, a);
    } else {
      OtherStepKeepsChannels(s, a);
    }
  }

  lemma WriterStepKeepsChannels(s: State, a: Action)
    requires Channels(s) && Enabled(s, a) && WriterStep(a)
    ensures Channels(Step(s, a))
  {
    match a
    case Tick(g) =>
    case SeeStop(g) =>
    case TakeLock(g) =>
    case Write(g, err) =>
    case Settle(g) =>
    case Close(g) =>
  }

  lemma OtherStepKeepsChannels(s: State, a: Action)
    requires Channels(s) && Enabled(s, a) && !WriterStep(a)
    ensures Channels(Step(s, a))
  {
    match a
    case MarkDirty =>
    case StopRequest =>
    case _ =>
  }

  /** Once stopped, no generation is added and an exited one stays exited. */
  lemma StoppedFields(s: State, a: Action)
    requires s.f.stopped && Enabled(s, a)
    ensures Step(s, a).f.stopped && CurrentDone(Step(s, a).f) == CurrentDone(s.f)
    ensures LastExited(s.f) ==> LastExited(Step(s, a).f)
  {
    if WriterStep(a) {
      assert Step(s, a).f.writers == s.f.writers[a.gen := Step(s, a).f.writers[a.gen]];
    }
  }

  lemma StepKeepsStops(s: State, a: Action)
    requires Stops(s) && Enabled(s, a)
    ensures Stops(Step(s, a))
  {
    var t := Step(s, a);
    forall i | 0 <= i < |t.stops|
      ensures StopCallOk(t.f, t.stops[i])
    {
      if i < |s.stops| {
        assert StopCallOk(s.f, s.stops[i]);
        StoppedFields(s, a);
      }
    }
  }

  lemma StepKeepsInv(s: State, a: Action)
    requires Inv(s) && Enabled(s, a)
    ensures Inv(Step(s, a))
  {
    StepKeepsOneWriter(s, a);
    StepKeepsChannels(s, a);
    StepKeepsStops(s, a);
  }

  lemma {:induction false} RunKeepsInv(s: State, acts: seq<Action>)
    requires Inv(s) && Run(s, acts).Some?
    ensures Inv(Run(s, acts).value)
    decreases |acts|
  {
    if acts != [] {
      StepKeepsInv(s, acts[0]);
      RunKeepsInv(Step(s, acts[0]), acts[1..]);
    }
  }

  // ---------------------------------------------------------------------------
  // Histories
  // ---------------------------------------------------------------------------

  lemma ReachableInv(s: State)
    requires Reachable(s)
    ensures Inv(s)
  {
    var content: nat, acts: seq<Action> :| Run(Init(content), acts) == Some(s);
    RunKeepsInv(Init(content), acts);
  }

  lemma {:induction false} RunAppend(s: State, acts: seq<Action>, a: Action)
    requires Run(s, acts).Some? && Enabled(Run(s, acts).value, a)
    ensures Run(s, acts + [a]) == Some(Step(Run(s, acts).value, a))
    decreases |acts|
  {
    if acts == [] {
      assert (acts + [a])[1..] == [];
    } else {
      assert (acts + [a])[1..] == acts[1..] + [a];
      RunAppend(Step(s, acts[0]), acts[1..], a);
    }
  }

  lemma StepReachable(s: State, a: Action)
    requires Reachable(s) && Enabled(s, a)
    ensures Reachable(Step(s, a))
  {
    var content: nat, acts: seq<Action> :| Run(Init(content), acts) == Some(s);
    RunAppend(Init(content), acts, a);
    assert Run(Init(content), acts + [a]) == Some(Step(s, a));
  }

  lemma {:induction false} RunReachable(s: State, acts: seq<Action>)
    requires Reachable(s) && Run(s, acts).Some?
    ensures Reachable(Run(s, acts).value)
    decreases |acts|
  {
    if acts != [] {
      StepReachable(s, acts[0]);
      RunReachable(Step(s, acts[0]), acts[1..]);
    }
  }

  lemma {:induction false} RunSnoc(s: State, acts: seq<Action>)
    requires acts != [] && Run(s, acts).Some?
    ensures var n := |acts| - 1;
            && Run(s, acts[..n]).Some? && Enabled(Run(s, acts[..n]).value, acts[n])
            && Run(s, acts) == Some(Step(Run(s, acts[..n]).value, acts[n]))
    decreases |acts|
  {
    var n := |acts| - 1;
    if n == 0 {
      assert acts[..0] == [] && acts[1..] == [];
    } else {
      RunSnoc(Step(s, acts[0]), acts[1..]);
      assert acts[1..][..n - 1] == acts[..n][1..];
      assert acts[..n][0] == acts[0] && acts[1..][n - 1] == acts[n];
    }
  }

  /** What step i of a run is, seen from the state before it. */
  type Event = (State, Action) -> bool

  ghost predicate Happens(content: nat, acts: seq<Action>, i: nat, e: Event)
    requires i < |acts|
  {
    var before := Run(Init(content), acts[..i]);
    before.Some? && e(before.value, acts[i])
  }

  /** Some step is a setting event, and no later one a clearing event. */
  ghost predicate LastSet(content: nat, acts: seq<Action>, sets: Event, clears: Event) {
    exists i :: 0 <= i < |acts| && Happens(content, acts, i, sets) &&
                forall j :: i < j < |acts| ==> !Happens(content, acts, j, clears)
  }

  lemma LastSetSnoc(content: nat, acts: seq<Action>, sets: Event, clears: Event)
    requires acts != []
    ensures var n := |acts| - 1;
            LastSet(content, acts, sets, clears) <==>
            Happens(content, acts, n, sets) || (LastSet(content, acts[..n], sets, clears) && !Happens(content, acts, n, clears))
  {
    var n := |acts| - 1;
    forall i, e | 0 <= i < n
      ensures Happens(content, acts[..n], i, e) == Happens(content, acts, i, e)
    {
      assert acts[..n][..i] == acts[..i];
    }
    hide Happens;
    if LastSet(content, acts[..n], sets, clears) && !Happens(content, acts, n, clears) {
      var i :| 0 <= i < n && Happens(content, acts[..n], i, sets) &&
               forall j :: i < j < n ==> !Happens(content, acts[..n], j, clears);
      assert forall j :: i < j < |acts| ==> !Happens(content, acts, j, clears);
    }
  }

  // ---------------------------------------------------------------------------
  // Nothing is lost
  // ---------------------------------------------------------------------------

  /** A write that reached the state file. */
  predicate Landed(a: Action) {
    (a.Write? && a.err.None?) || (a.FlushWrite? && a.err.None?)
  }

  /** A mutator gives the lock back over a change it neither marked nor wrote: its
      synchronous write failed, or it changed memory and never asked for a write. */
  predicate GivesUp(s: State, a: Action) {
    a.Unlock? && s.mu.Mutator? && s.memory != s.mu.base
  }

  /** And no flag or claimed write happens to cover the change. */
  predicate GivesUpUncovered(s: State, a: Action) {
    GivesUp(s, a) && s.memory != s.disk && !s.f.dirty && !PendingWriter(s)
  }

  /** A mark, a landed write, or another change given up. */
  predicate Supersedes(s: State, a: Action) {
    a.MarkDirty? || Landed(a) || (a.PersistSync? && a.err.None?) || GivesUp(s, a)
  }

  lemma UncoveredWriterStep(s: State, a: Action)
    requires OneWriter(s) && Enabled(s, a) && WriterStep(a)
    ensures Uncovered(Step(s, a)) <==> Uncovered(s) && !Landed(a)
  {
  }

  /** Among all the steps, only these open or close the gap. */
  lemma UncoveredStep(s: State, a: Action)
    requires OneWriter(s) && Enabled(s, a)
    ensures Uncovered(Step(s, a)) <==> GivesUpUncovered(s, a) || (Uncovered(s) && !Supersedes(s, a))
  {
    if WriterStep(a) {
      UncoveredWriterStep(s, a);
      hide Uncovered;
    } else {
      hide OneWriter;
    }
  }

  /** After any run, what ought to be on disk is owed by nobody exactly when the last
      change was given up, after a failed synchronous write or without any mark, at a
      moment with no dirty flag and no claimed write, and nothing was marked or landed
      since. */
  lemma {:induction false} UncoveredExactly(content: nat, acts: seq<Action>)
    requires Run(Init(content), acts).Some?
    ensures Uncovered(Run(Init(content), acts).value) <==> LastSet(content, acts, GivesUpUncovered, Supersedes)
    decreases |acts|
  {
    if acts != [] {
      var n := |acts| - 1;
      var before := Run(Init(content), acts[..n]);
      RunSnoc(Init(content), acts);
      UncoveredExactly(content, acts[..n]);
      RunKeepsInv(Init(content), acts[..n]);
      UncoveredStep(before.value, acts[n]);
      LastSetSnoc(content, acts, GivesUpUncovered, Supersedes);
      hide LastSet;
      hide Uncovered;
      hide Supersedes;
      hide GivesUpUncovered;
      hide Run;
      hide Enabled;
      hide Step;
    }
  }

  /** Whenever the state lock is free, a change that is not on disk is marked dirty, in the
      hands of a writer that has not finished with it, or given up as above. */
  lemma NothingIsLost(content: nat, acts: seq<Action>)
    requires Run(Init(content), acts).Some?
    ensures var s := Run(Init(content), acts).value;
            s.mu.Free? ==>
              (s.disk != s.memory && !s.f.dirty && !PendingWriter(s) <==> LastSet(content, acts, GivesUpUncovered, Supersedes))
  {
    UncoveredExactly(content, acts);
  }

  /** One way there: after one failed synchronous write nothing will ever write the
      change. */
  lemma FailedSyncCanLoseAChange()
    ensures exists s: State :: Reachable(s) && s.mu.Free? && s.disk != s.memory && !s.f.dirty && s.f.writers == []
  {
    var s0 := Init(0);
    var s1 := Step(s0, Lock);
    var s2 := Step(s1, Mutate(1));
    var s3 := Step(s2, PersistSync(Some("disk full")));
    var s4 := Step(s3, Unlock);
    assert Run(s0, []) == Some(s0);
    StepReachable(s0, Lock);
    StepReachable(s1, Mutate(1));
    StepReachable(s2, PersistSync(Some("disk full")));
    StepReachable(s3, Unlock);
    assert s4.mu.Free? && s4.disk != s4.memory;
  }

  /** The other way: a change that is never marked, in a run in which no write fails. */
  lemma UnmarkedChangeCanBeLost()
    ensures var acts := [Lock, Mutate(1), Unlock];
            && Run(Init(0), acts).Some? && LastSet(0, acts, GivesUpUncovered, Supersedes)
            && var s := Run(Init(0), acts).value; s.mu.Free? && s.disk != s.memory && Uncovered(s)
  {
    var acts := [Lock, Mutate(1), Unlock];
    var s1 := Step(Init(0), Lock);
    var s2 := Step(s1, Mutate(1));
    var s3 := Step(s2, Unlock);
    assert acts[1..] == [Mutate(1), Unlock] && acts[1..][1..] == [Unlock] && acts[1..][1..][1..] == [];
    assert Run(s2, [Unlock]) == Some(s3);
    assert Run(s1, [Mutate(1), Unlock]) == Some(s3);
    assert Run(Init(0), acts) == Some(s3) && Uncovered(s3);
    UncoveredExactly(0, acts);
  }

  // ---------------------------------------------------------------------------
  // What the fields remember of a run
  // ---------------------------------------------------------------------------

  /** How the last write of a generation went, by the actions alone. */
  function LastWrite(acts: seq<Action>, gen: nat): Option<Error> {
    if acts == [] then None
    else
      var n := |acts| - 1;
      if acts[n].Write? && acts[n].gen == gen then acts[n].err else LastWrite(acts[..n], gen)
  }

  /** Action i has a writer report a failed write. */
  predicate ReportsFailure(acts: seq<Action>, i: nat)
    requires i < |acts|
  {
    acts[i].Settle? && LastWrite(acts[..i], acts[i].gen).Some?
  }

  predicate ReportsSuccess(acts: seq<Action>, i: nat)
    requires i < |acts|
  {
    acts[i].Settle? && LastWrite(acts[..i], acts[i].gen).None?
  }

  /** A mutation or a flush takes the parked error away. */
  predicate TakesError(a: Action) {
    a.MarkDirty? || a.FlushClaim?
  }

  /** Action i reports the failure e. */
  predicate Reports(acts: seq<Action>, i: nat, e: Error)
    requires i < |acts|
  {
    acts[i].Settle? && LastWrite(acts[..i], acts[i].gen) == Some(e)
  }

  /** It reports another failure, or takes the parked one. */
  predicate Replaces(acts: seq<Action>, i: nat)
    requires i < |acts|
  {
    ReportsFailure(acts, i) || TakesError(acts[i])
  }

  /** Error e was the last one reported, and nobody has taken it since. */
  ghost predicate LastReported(acts: seq<Action>, e: Error) {
    exists i :: 0 <= i < |acts| && Reports(acts, i, e) && forall j :: i < j < |acts| ==> !Replaces(acts, j)
  }

  /** The failures reported since the last success. */
  function FailuresInARow(acts: seq<Action>): nat {
    if acts == [] then 0
    else
      var n := |acts| - 1;
      if ReportsSuccess(acts, n) then 0
      else FailuresInARow(acts[..n]) + if ReportsFailure(acts, n) then 1 else 0
  }

  /** What a writer is about to report is how its last write went. */
  ghost predicate ReportsPending(s: State, acts: seq<Action>) {
    forall g :: 0 <= g < |s.f.writers| && s.f.writers[g].pc.Wrote? ==> s.f.writers[g].pc.err == LastWrite(acts, g)
  }

  lemma {:induction false} RunReports(content: nat, acts: seq<Action>)
    requires Run(Init(content), acts).Some?
    ensures ReportsPending(Run(Init(content), acts).value, acts)
    decreases |acts|
  {
    if acts != [] {
      var n := |acts| - 1;
      var before := Run(Init(content), acts[..n]);
      RunSnoc(Init(content), acts);
      RunReports(content, acts[..n]);
      hide Run;
      StepReports(before.value, acts);
    }
  }

  lemma StepReports(s: State, acts: seq<Action>)
    requires acts != [] && Enabled(s, acts[|acts| - 1]) && ReportsPending(s, acts[..|acts| - 1])
    ensures ReportsPending(Step(s, acts[|acts| - 1]), acts)
  {
    var n := |acts| - 1;
    var a, t := acts[n], Step(s, acts[n]);
    forall g | 0 <= g < |t.f.writers| && t.f.writers[g].pc.Wrote?
      ensures t.f.writers[g].pc.err == LastWrite(acts, g)
    {
      if !(a.Write? && a.gen == g) {
        StepWrote(s, a, g);
        assert LastWrite(acts, g) == LastWrite(acts[..n], g);
      }
    }
  }

  lemma StepWrote(s: State, a: Action, g: nat)
    requires Enabled(s, a) && g < |Step(s, a).f.writers| && Step(s, a).f.writers[g].pc.Wrote?
    requires !(a.Write? && a.gen == g)
    ensures g < |s.f.writers| && s.f.writers[g].pc == Step(s, a).f.writers[g].pc
  {
  }

  lemma PrefixReports(acts: seq<Action>, n: nat, i: nat, e: Error)
    requires i < n <= |acts|
    ensures Reports(acts[..n], i, e) == Reports(acts, i, e) && Replaces(acts[..n], i) == Replaces(acts, i)
  {
    assert acts[..n][..i] == acts[..i];
    hide LastWrite;
  }

  lemma LastReportedSnoc(acts: seq<Action>, e: Error)
    requires acts != []
    ensures var n := |acts| - 1;
            LastReported(acts, e) <==> Reports(acts, n, e) || (LastReported(acts[..n], e) && !Replaces(acts, n))
  {
    var n := |acts| - 1;
    forall i | 0 <= i < n
      ensures Reports(acts[..n], i, e) == Reports(acts, i, e) && Replaces(acts[..n], i) == Replaces(acts, i)
    {
      PrefixReports(acts, n, i, e);
    }
    hide Reports;
    hide Replaces;
    if LastReported(acts[..n], e) && !Replaces(acts, n) {
      var i :| 0 <= i < n && Reports(acts[..n], i, e) && forall j :: i < j < n ==> !Replaces(acts[..n], j);
      assert Reports(acts, i, e) && forall j :: i < j < |acts| ==> !Replaces(acts, j);
    }
    if i :| 0 <= i < n && Reports(acts, i, e) && forall j :: i < j < |acts| ==> !Replaces(acts, j) {
      assert Reports(acts[..n], i, e) && forall j :: i < j < n ==> !Replaces(acts[..n], j);
    }
  }

  /** After any run the parked error is that of the last failed background write to have
      been reported and not taken since, by a mutation or a flush. */
  lemma {:induction false} ParkedExactly(content: nat, acts: seq<Action>, e: Error)
    requires Run(Init(content), acts).Some?
    ensures Run(Init(content), acts).value.f.parked == Some(e) <==> LastReported(acts, e)
    decreases |acts|
  {
    if acts != [] {
      var n := |acts| - 1;
      var before := Run(Init(content), acts[..n]);
      RunSnoc(Init(content), acts);
      ParkedExactly(content, acts[..n], e);
      RunReports(content, acts[..n]);
      LastReportedSnoc(acts, e);
      hide LastReported;
      hide Run;
      hide LastWrite;
      StepParks(before.value, acts[n]);
    }
  }

  lemma StepParks(s: State, a: Action)
    requires Enabled(s, a)
    ensures Step(s, a).f.parked ==
            if TakesError(a) then None
            else if a.Settle? && s.f.writers[a.gen].pc.err.Some? then s.f.writers[a.gen].pc.err
            else s.f.parked
  {
  }

  /** And the failures counted are those reported in a row. */
  lemma {:induction false} FailuresExactly(content: nat, acts: seq<Action>)
    requires Run(Init(content), acts).Some?
    ensures Run(Init(content), acts).value.f.failures == FailuresInARow(acts)
    decreases |acts|
  {
    if acts != [] {
      var n := |acts| - 1;
      var before := Run(Init(content), acts[..n]);
      RunSnoc(Init(content), acts);
      FailuresExactly(content, acts[..n]);
      RunReports(content, acts[..n]);
      hide Run;
      hide LastWrite;
      StepCounts(before.value, acts[n]);
    }
  }

  lemma StepCounts(s: State, a: Action)
    requires Enabled(s, a)
    ensures Step(s, a).f.failures ==
            if !a.Settle? then s.f.failures
            else if s.f.writers[a.gen].pc.err.Some? then s.f.failures + 1
            else 0
  {
  }

  /** A step that leaves something to write: a mark, a failed background write reported, or
      a failed flush. */
  predicate Dirties(s: State, a: Action) {
    a.MarkDirty? || a.FlushRestore? || (a.Settle? && a.gen < |s.f.writers| && s.f.writers[a.gen].pc.Wrote? && s.f.writers[a.gen].pc.err.Some?)
  }

  /** A step that takes it on: a flush, or the timer of a writer nobody has stopped. */
  predicate TakesOn(s: State, a: Action) {
    a.FlushClaim? || (a.Tick? && !s.f.stopped)
  }

  /** After any run the state is dirty exactly when something was left to write and nobody
      has taken it on since. */
  lemma {:induction false} DirtyExactly(content: nat, acts: seq<Action>)
    requires Run(Init(content), acts).Some?
    ensures Run(Init(content), acts).value.f.dirty <==> LastSet(content, acts, Dirties, TakesOn)
    decreases |acts|
  {
    if acts != [] {
      var n := |acts| - 1;
      var before := Run(Init(content), acts[..n]);
      RunSnoc(Init(content), acts);
      DirtyExactly(content, acts[..n]);
      LastSetSnoc(content, acts, Dirties, TakesOn);
      hide LastSet;
      hide Run;
      StepDirties(before.value, acts[n]);
      hide Step;
    }
  }

  lemma StepDirties(s: State, a: Action)
    requires Enabled(s, a)
    ensures Step(s, a).f.dirty <==> Dirties(s, a) || (s.f.dirty && !TakesOn(s, a))
  {
  }

  /** Stopped means a stop was asked for. */
  lemma {:induction false} StoppedExactly(content: nat, acts: seq<Action>)
    requires Run(Init(content), acts).Some?
    ensures Run(Init(content), acts).value.f.stopped <==> StopRequest in acts
    decreases |acts|
  {
    if acts != [] {
      var n := |acts| - 1;
      RunSnoc(Init(content), acts);
      StoppedExactly(content, acts[..n]);
      assert acts == acts[..n] + [acts[n]];
      hide Run;
      StepStops(Run(Init(content), acts[..n]).value, acts[n]);
    }
  }

  lemma StepStops(s: State, a: Action)
    requires Enabled(s, a)
    ensures Step(s, a).f.stopped <==> s.f.stopped || a == StopRequest
  {
  }

  predicate Owed(s: State) {
    s.f.dirty || PendingWriter(s) || PendingFlush(s)
  }

  lemma OwedUntilLanded(s: State, a: Action)
    requires OneWriter(s) && Enabled(s, a) && Owed(s) && !Landed(a)
    ensures Owed(Step(s, a))
  {
    match a
    case Tick(g) =>
    case Write(g, err) =>
    case Settle(g) =>
    case _ =>
  }

  /** No mark is ever cleared by a write that predates it: from a marked state on, the
      write stays owed, through every claim, failure, retry and flush, until one lands. */
  lemma {:induction false} MarkIsOwedUntilAWriteLands(s: State, acts: seq<Action>)
    requires Reachable(s) && s.f.dirty && Run(s, acts).Some?
    requires forall i :: 0 <= i < |acts| ==> !Landed(acts[i])
    ensures Owed(Run(s, acts).value)
  {
    ReachableInv(s);
    OwedRun(s, acts);
  }

  lemma {:induction false} OwedRun(s: State, acts: seq<Action>)
    requires Inv(s) && Owed(s) && Run(s, acts).Some?
    requires forall i :: 0 <= i < |acts| ==> !Landed(acts[i])
    ensures Owed(Run(s, acts).value)
    decreases |acts|
  {
    if acts != [] {
      StepKeepsInv(s, acts[0]);
      OwedUntilLanded(s, acts[0]);
      OwedRun(Step(s, acts[0]), acts[1..]);
    }
  }

  /** Dirty, with no writer to do anything about it. */
  predicate Stranded(s: State) {
    s.f.dirty && !s.f.stopped && !s.f.running
  }

  /** A flush whose write failed sets the flag back when no writer is left. */
  predicate Strands(s: State, a: Action) {
    a.FlushRestore? && !s.f.running && !s.f.stopped
  }

  /** A mark, which starts a writer; the next flush; or a stop. */
  predicate Relieves(s: State, a: Action) {
    a.MarkDirty? || a.FlushClaim? || a.StopRequest?
  }

  lemma StrandedStep(s: State, a: Action)
    requires OneWriter(s) && Channels(s) && Enabled(s, a)
    ensures Stranded(Step(s, a)) <==> Strands(s, a) || (Stranded(s) && !Relieves(s, a))
  {
    if WriterStep(a) {
      assert a.gen < |s.f.writers| && s.f.writers[a.gen].pc != Exited;
    }
  }

  /** After any run, a dirty state is without a writer exactly when the last flush to set
      the flag back found none, and no mark, flush or stop came since. */
  lemma {:induction false} StrandedExactly(content: nat, acts: seq<Action>)
    requires Run(Init(content), acts).Some?
    ensures Stranded(Run(Init(content), acts).value) <==> LastSet(content, acts, Strands, Relieves)
    decreases |acts|
  {
    if acts != [] {
      var n := |acts| - 1;
      var before := Run(Init(content), acts[..n]);
      RunSnoc(Init(content), acts);
      StrandedExactly(content, acts[..n]);
      RunKeepsInv(Init(content), acts[..n]);
      StrandedStep(before.value, acts[n]);
      LastSetSnoc(content, acts, Strands, Relieves);
      hide LastSet;
      hide Stranded;
      hide Strands;
      hide Relieves;
      hide Run;
      hide Enabled;
      hide Step;
    }
  }

  /** Otherwise "dirty implies a scheduled writer" holds: the newest one is alive. */
  lemma DirtyIsScheduled(content: nat, acts: seq<Action>)
    requires Run(Init(content), acts).Some? && !LastSet(content, acts, Strands, Relieves)
    ensures var s := Run(Init(content), acts).value;
            s.f.dirty && !s.f.stopped ==> s.f.writers != [] && Live(s.f.writers[|s.f.writers| - 1].pc)
  {
    StrandedExactly(content, acts);
    RunKeepsInv(Init(content), acts);
  }

  /** A state in which one change has been marked and the lock given back. */
  function Marked(): State {
    State(Fields(true, true, false, 0, None, [Writer(Waiting, 0, 0)]), Free, 1, 0, 1, [])
  }

  lemma MarkedIsReachable()
    ensures Reachable(Marked())
  {
    var s0 := Init(0);
    assert Run(s0, []) == Some(s0);
    var s1 := Step(s0, Lock);         StepReachable(s0, Lock);
    var s2 := Step(s1, Mutate(1));    StepReachable(s1, Mutate(1));
    var s3 := Step(s2, MarkDirty);    StepReachable(s2, MarkDirty);
    assert s3.f == Marked().f;
    StepReachable(s3, Unlock);
    assert Step(s3, Unlock) == Marked();
  }

  /** And it does happen: the writer's tick finds the flag the flush has just cleared. */
  lemma FailedFlushCanStrand()
    ensures exists s: State :: Reachable(s) && Stranded(s)
  {
    MarkedIsReachable();
    StepReachable(Marked(), FlushLock);
    TickDuringFlush(Step(Marked(), FlushLock));
  }

  lemma TickDuringFlush(s: State)
    requires Reachable(s) && s.mu == Flush(Entered) && s.f.dirty && !s.f.stopped && WriterAt(s, 0, Waiting)
    ensures exists t: State :: Reachable(t) && Stranded(t)
  {
    var s1 := Step(s, FlushClaim);    StepReachable(s, FlushClaim);
    var err := Some("disk full");
    var s2 := Step(s1, FlushWrite(err)); StepReachable(s1, FlushWrite(err));
    var s3 := Step(s2, Tick(0));      StepReachable(s2, Tick(0));
    var s4 := Step(s3, FlushRestore); StepReachable(s3, FlushRestore);
    assert Stranded(s4);
  }

  /** What a flush in progress may do to disk and memory, whatever the writers and stoppers
      do meanwhile. */
  lemma {:induction false} FlushHolds(s: State, acts: seq<Action>)
    requires s.mu.Flush? && s.mu.at != Entered && Run(s, acts).Some?
    requires FlushUnlock !in acts
    ensures var t := Run(s, acts).value;
            && t.mu.Flush? && t.memory == s.memory
            && (t.mu.at == Finished(true) ==>
                  (s.mu.at == ClaimedDirty && t.disk == t.memory) || (s.mu.at == Finished(true) && t.disk == s.disk))
    decreases |acts|
  {
    if acts != [] {
      assert acts[0] in acts;
      FlushHolds(Step(s, acts[0]), acts[1..]);
    }
  }

  /** A flush that returns clean leaves disk and memory equal exactly when it found the
      dirty flag set or the disk up to date already. */
  lemma CleanFlush(s: State, acts: seq<Action>)
    requires s.mu == Flush(Entered) && Run(Step(s, FlushClaim), acts).Some? && FlushUnlock !in acts
    requires Run(Step(s, FlushClaim), acts).value.mu == Flush(Finished(true))
    ensures var t := Run(Step(s, FlushClaim), acts).value;
            t.disk == t.memory <==> s.f.dirty || s.disk == s.memory
  {
    FlushHolds(Step(s, FlushClaim), acts);
  }

  /** So, after any run, a clean flush leaves them equal whenever it found the flag set, or
      no writer with a claimed write and no change given up. */
  lemma CleanFlushIsEnough(content: nat, acts: seq<Action>, flush: seq<Action>)
    requires Run(Init(content), acts).Some? && Run(Init(content), acts).value.mu == Flush(Entered)
    requires var claimed := Step(Run(Init(content), acts).value, FlushClaim);
             Run(claimed, flush).Some? && FlushUnlock !in flush && Run(claimed, flush).value.mu == Flush(Finished(true))
    ensures var s := Run(Init(content), acts).value;
            var t := Run(Step(s, FlushClaim), flush).value;
            s.f.dirty || (!PendingWriter(s) && !LastSet(content, acts, GivesUpUncovered, Supersedes)) ==> t.disk == t.memory
  {
    UncoveredExactly(content, acts);
    CleanFlush(Run(Init(content), acts).value, flush);
    hide Run;
    hide Step;
    hide LastSet;
  }

  /** Neither condition can be dropped: a flush that finds the flag cleared by a writer
      which has claimed but not started returns clean while the disk is stale. */
  lemma FlushCanReturnBeforeTheClaimedWrite()
    ensures exists s: State ::
              Reachable(s) && s.mu == Flush(Entered) && !s.f.dirty && PendingWriter(s) &&
              Step(s, FlushClaim).mu == Flush(Finished(true)) && Step(s, FlushClaim).disk != Step(s, FlushClaim).memory
  {
    MarkedIsReachable();
    FlushAfterClaim(Marked());
  }

  lemma FlushAfterClaim(s: State)
    requires Reachable(s) && s.mu.Free? && s.f.dirty && !s.f.stopped && s.disk != s.memory
    requires |s.f.writers| == 1 && WriterAt(s, 0, Waiting)
    ensures exists t: State ::
              Reachable(t) && t.mu == Flush(Entered) && !t.f.dirty && PendingWriter(t) &&
              Step(t, FlushClaim).mu == Flush(Finished(true)) && Step(t, FlushClaim).disk != Step(t, FlushClaim).memory
  {
    var s1 := Step(s, Tick(0));       StepReachable(s, Tick(0));
    var s2 := Step(s1, FlushLock);    StepReachable(s1, FlushLock);
    assert PendingWriter(s2) && Step(s2, FlushClaim).disk != Step(s2, FlushClaim).memory;
  }

  // ---------------------------------------------------------------------------
  // Stopping
  // ---------------------------------------------------------------------------

  /** Some call of stopPersistWriter has returned. */
  ghost predicate StopReturned(s: State) {
    exists i :: 0 <= i < |s.stops| && s.stops[i].Returned?
  }

  predicate BackgroundStep(a: Action) {
    a.TakeLock? || a.Write? || a.Settle?
  }

  lemma StopIsFinal(s: State, a: Action)
    requires Inv(s) && StopReturned(s) && Enabled(s, a)
    ensures StopReturned(Step(s, a)) && !BackgroundStep(a)
    ensures Step(s, a).f.writers != s.f.writers ==> a.Close?
    ensures |Step(s, a).f.writers| == |s.f.writers|
  {
    var i :| 0 <= i < |s.stops| && s.stops[i].Returned?;
    assert StopCallOk(s.f, s.stops[i]);
    assert Step(s, a).stops[i].Returned?;
  }

  /** Once a stop has returned, no later step of any run is a background write, no writer
      generation is ever started again, and no channel is closed twice. */
  lemma {:induction false} NoBackgroundWriteAfterStop(s: State, acts: seq<Action>)
    requires Reachable(s) && StopReturned(s) && Run(s, acts).Some?
    ensures forall i :: 0 <= i < |acts| ==> !BackgroundStep(acts[i])
    ensures |Run(s, acts).value.f.writers| == |s.f.writers|
    ensures forall w <- Run(s, acts).value.f.writers :: !Live(w.pc) && w.stopCloses <= 1 && w.doneCloses <= 1
    decreases |acts|
  {
    ReachableInv(s);
    if acts == [] {
      var i :| 0 <= i < |s.stops| && s.stops[i].Returned?;
      assert StopCallOk(s.f, s.stops[i]);
    } else {
      StepReachable(s, acts[0]);
      StopIsFinal(s, acts[0]);
      NoBackgroundWriteAfterStop(Step(s, acts[0]), acts[1..]);
    }
  }

  /** A flush that has finished clean has nothing left to write but what was given up. */
  predicate FlushedClean(s: State) {
    s.mu == Flush(Finished(true)) ==> s.disk == s.memory || Uncovered(s)
  }

  lemma StoppedFlushStep(s: State, a: Action)
    requires Inv(s) && StopReturned(s) && FlushedClean(s) && Enabled(s, a)
    ensures FlushedClean(Step(s, a))
  {
    var i :| 0 <= i < |s.stops| && s.stops[i].Returned?;
    assert StopCallOk(s.f, s.stops[i]);
    StopIsFinal(s, a);
  }

  lemma {:induction false} StoppedFlushRun(s: State, acts: seq<Action>)
    requires Inv(s) && StopReturned(s) && FlushedClean(s) && Run(s, acts).Some?
    ensures FlushedClean(Run(s, acts).value)
    decreases |acts|
  {
    if acts != [] {
      StepKeepsInv(s, acts[0]);
      StopIsFinal(s, acts[0]);
      StoppedFlushStep(s, acts[0]);
      hide Step;
      hide FlushedClean;
      hide StopReturned;
      hide Inv;
      StoppedFlushRun(Step(s, acts[0]), acts[1..]);
    }
  }

  lemma {:induction false} RunSplits(s: State, a: seq<Action>, b: seq<Action>)
    requires Run(s, a).Some?
    ensures Run(s, a + b) == Run(Run(s, a).value, b)
    decreases |a|
  {
    if a == [] {
      assert a + b == b;
    } else {
      assert (a + b)[1..] == a[1..] + b;
      RunSplits(Step(s, a[0]), a[1..], b);
    }
  }

  /** Stop-then-flush, the order of shutdown: after a returned stop, and whatever is
      interleaved, a flush that finishes without a failed write of its own leaves the disk
      equal to memory, except exactly for a change given up as above. */
  lemma FlushAfterStop(content: nat, acts: seq<Action>, later: seq<Action>)
    requires Run(Init(content), acts).Some? && StopReturned(Run(Init(content), acts).value)
    requires Run(Init(content), acts).value.mu != Flush(Finished(true))
    requires Run(Run(Init(content), acts).value, later).Some?
    ensures var t := Run(Run(Init(content), acts).value, later).value;
            t.mu == Flush(Finished(true)) ==>
              (t.disk == t.memory <==> !LastSet(content, acts + later, GivesUpUncovered, Supersedes))
  {
    RunSplits(Init(content), acts, later);
    RunKeepsInv(Init(content), acts);
    StoppedFlushRun(Run(Init(content), acts).value, later);
    UncoveredExactly(content, acts + later);
    hide Run;
    hide LastSet;
  }

  /** Any mutator may leave any content behind without a mark. */
  lemma UnmarkedChange(s: State, content: nat)
    requires Reachable(s) && s.mu.Free?
    ensures Reachable(s.(memory := content))
  {
    var s1 := Step(s, Lock);               StepReachable(s, Lock);
    var s2 := Step(s1, Mutate(content));   StepReachable(s1, Mutate(content));
    StepReachable(s2, Unlock);
    assert Step(s2, Unlock) == s.(memory := content);
  }

  lemma StoppedAtOnce() returns (s: State)
    ensures Reachable(s) && StopReturned(s) && s.mu.Free? && !s.f.dirty && s.disk == 0
  {
    assert Run(Init(0), []) == Some(Init(0));
    var s1 := Step(Init(0), StopRequest);
    StepReachable(Init(0), StopRequest);
    s := Step(s1, StopReturn(0));
    StepReachable(s1, StopReturn(0));
    assert s.stops[0] == Returned;
  }

  /** And that case is reachable: shutdown over a change nobody marked, with no write
      failing, reports a clean flush and leaves the disk stale. */
  lemma CleanShutdownCanMissAChange()
    ensures exists s: State :: Reachable(s) && StopReturned(s) && s.mu == Flush(Finished(true)) && s.disk != s.memory
  {
    var s := StoppedAtOnce();
    UnmarkedChange(s, 1);
    var s1 := s.(memory := 1);
    var s2 := Step(s1, FlushLock);
    StepReachable(s1, FlushLock);
    StepReachable(s2, FlushClaim);
    assert s2.stops == s.stops;
    hide Reachable;
    assert StopReturned(Step(s2, FlushClaim));
  }

  /** How many steps a writer has left once the App is stopped. */
  function StepsLeft(pc: WriterPC): nat {
    match pc
    case Claimed => 5
    case Writing => 4
    case Wrote(_) => 3
    case Waiting => 2
    case Leaving => 1
    case Exited => 0
  }

  function WriterStepsLeft(ws: seq<Writer>): nat {
    if ws == [] then 0 else StepsLeft(ws[0].pc) + WriterStepsLeft(ws[1..])
  }

  lemma {:induction false} ReplaceWriter(ws: seq<Writer>, i: nat, w: Writer)
    requires i < |ws|
    ensures WriterStepsLeft(ws[i := w]) == WriterStepsLeft(ws) - StepsLeft(ws[i].pc) + StepsLeft(w.pc)
  {
    if i == 0 {
      assert ws[i := w][1..] == ws[1..];
    } else {
      assert ws[i := w][1..] == ws[1..][i - 1 := w];
      ReplaceWriter(ws[1..], i - 1, w);
    }
  }

  lemma WriterStepDescends(s: State, a: Action) returns (gen: nat, w: Writer)
    requires s.f.stopped && Enabled(s, a) && WriterStep(a)
    ensures gen < |s.f.writers| && StepsLeft(w.pc) < StepsLeft(s.f.writers[gen].pc)
    ensures Step(s, a).f.writers == s.f.writers[gen := w]
  {
    gen := a.gen;
    w := Step(s, a).f.writers[gen];
  }

  /** The wait of a stopper is bounded: once stopped, every writer step uses up one of a
      finite number, and no other step adds any. */
  lemma StopTerminates(s: State, a: Action)
    requires s.f.stopped && Enabled(s, a)
    ensures var left := WriterStepsLeft(Step(s, a).f.writers);
            if WriterStep(a) then left < WriterStepsLeft(s.f.writers) else left == WriterStepsLeft(s.f.writers)
    ensures Step(s, a).f.stopped
  {
    if WriterStep(a) {
      var gen, w := WriterStepDescends(s, a);
      ReplaceWriter(s.f.writers, gen, w);
    }
  }

  /** And it never deadlocks: while a stop is waiting, either it may return, or the writer
      it waits for can step, or someone else holds the state lock. */
  lemma StopMakesProgress(s: State, call: nat)
    requires Reachable(s) && call < |s.stops| && s.stops[call].Awaiting?
    ensures Enabled(s, StopReturn(call))
         || (s.mu != Free && !s.mu.BackgroundWrite?)
         || (s.stops[call].done.Some? && exists a: Action :: WriterStep(a) && a.gen == s.stops[call].done.value && Enabled(s, a))
  {
    ReachableInv(s);
    assert StopCallOk(s.f, s.stops[call]);
    if s.f.writers != [] {
      var g := |s.f.writers| - 1;
      match s.f.writers[g].pc
      case Waiting => assert Enabled(s, Tick(g)) && WriterStep(Tick(g));
      case Claimed =>
        if s.mu == Free {
          assert Enabled(s, TakeLock(g)) && WriterStep(TakeLock(g));
        }
      case Writing => assert Enabled(s, Write(g, None)) && WriterStep(Write(g, None));
      case Wrote(_) => assert Enabled(s, Settle(g)) && WriterStep(Settle(g));
      case Leaving => assert Enabled(s, Close(g)) && WriterStep(Close(g));
      case Exited =>
    }
  }

  // ---------------------------------------------------------------------------
  // The revision counter
  // ---------------------------------------------------------------------------

  function Mutations(acts: seq<Action>): nat {
    if acts == [] then 0
    else (if acts[0].MarkDirty? || acts[0].PersistSync? then 1 else 0) + Mutations(acts[1..])
  }

  /** The revision counts each mutation once: the writer and the flush, which drain
      mutations already counted, never move it. */
  lemma {:induction false} RevisionCountsMutations(s: State, acts: seq<Action>)
    requires Run(s, acts).Some?
    ensures Run(s, acts).value.revision == s.revision + Mutations(acts)
    decreases |acts|
  {
    if acts != [] {
      RevisionCountsMutations(Step(s, acts[0]), acts[1..]);
    }
  }
}
