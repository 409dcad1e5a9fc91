// The persist fields of the App and the methods that update them. Each method is one
// critical section of the leaf lock, or a whole operation run under the state lock, and
// is proved to take the step of the same name in the protocol.

module PersistFields {
  import opened PersistProtocol
  import opened Text

  const DEBOUNCE_MS: nat := 250
  const RETRY_CEILING_MS: nat := 5000

  function Pow2(n: nat): (p: nat)
    ensures p >= 1
  {
    if n == 0 then 1 else 2 * Pow2(n - 1)
  }

  function Min(a: nat, b: nat): nat {
    if a < b then a else b
  }

  lemma {:induction false} Pow2Grows(m: nat, n: nat)
    requires m <= n
    ensures Pow2(m) <= Pow2(n)
    decreases n - m
  {
    if m < n {
      Pow2Grows(m + 1, n);
    }
  }

  /** The delays in milliseconds before a write is tried again, after so many failures
      before the last one. */
  lemma RetryDelays(failures: nat)
    ensures Min(DEBOUNCE_MS * Pow2(failures), RETRY_CEILING_MS) ==
            if failures == 0 then 250 else if failures == 1 then 500 else if failures == 2 then 1000
            else if failures == 3 then 2000 else if failures == 4 then 4000 else 5000
  {
    if failures >= 5 {
      Pow2Grows(5, failures);
      assert Pow2(5) == 32;
    }
  }

  /** Exponential backoff: the debounce doubled once per failure after the first, capped. */
  method PersistBackoff(failures: nat) returns (delay: nat)
    ensures var doubled := DEBOUNCE_MS * Pow2(if failures == 0 then 0 else failures - 1);
            delay == if doubled > RETRY_CEILING_MS then RETRY_CEILING_MS else doubled
  {
    delay := DEBOUNCE_MS;
    var i := 1;
    while i < failures && delay < RETRY_CEILING_MS
      invariant 1 <= i && (i <= failures || i == 1)
      invariant delay == DEBOUNCE_MS * Pow2(i - 1)
    {
      delay := delay * 2;
      i := i + 1;
    }
    if i < failures {
      Pow2Grows(i - 1, failures - 1);
    }
    if delay > RETRY_CEILING_MS {
      delay := RETRY_CEILING_MS;
    }
  }

  class App {
    var persistDirty: bool
    var persistRunning: bool
    var persistStopped: bool
    var persistFailures: nat
    var persistErr: Option<Error>
    var writers: seq<Writer>
    var revision: nat
    var memory: nat
    var disk: nat

    function Snapshot(): Fields
      reads this
    {
      Fields(persistDirty, persistRunning, persistStopped, persistFailures, persistErr, writers)
    }

    /** The protocol state in which this App is, for a given holder of the state lock. */
    function StateUnder(mu: Holder): State
      reads this
    {
      State(Snapshot(), mu, memory, disk, revision, [])
    }

    constructor (content: nat)
      ensures StateUnder(Free) == Init(content)
    {
      persistDirty, persistRunning, persistStopped := false, false, false;
      persistFailures, persistErr, writers := 0, None, [];
      revision, memory, disk := 0, content, content;
    }

    /** The caller gets the failure of the secret store or else the parked failure of an
        earlier background write, which is taken off the App either way. */
    method MarkDirty(secretsErr: Option<Error>, ghost base: nat)
      returns (err: Option<Error>)
      modifies this
      ensures StateUnder(Mutator(memory)) ==
              Step(old(StateUnder(Mutator(base))), PersistProtocol.MarkDirty)
      ensures err == if secretsErr.Some? then secretsErr else old(persistErr)
      ensures persistDirty && persistErr == None && revision == old(revision) + 1
    {
      revision := revision + 1;
      persistDirty := true;
      if !persistRunning && !persistStopped {
        persistRunning := true;
        writers := writers + [Writer(Waiting, 0, 0)];
      }
      var previous := persistErr;
      persistErr := None;
      err := if secretsErr.Some? then secretsErr else previous;
    }

    /** One turn of the writer loop up to its write: true when the write is claimed. */
    method WriterClaim(gen: nat) returns (claimed: bool)
      requires gen < |writers| && writers[gen].pc == Waiting
      modifies this
      ensures Snapshot() == ClaimSection(old(Snapshot()), gen)
      ensures claimed <==> old(persistDirty) && !old(persistStopped)
      ensures |writers| == |old(writers)| && writers[gen].pc == (if claimed then Claimed else Leaving)
      ensures if claimed then !persistDirty else !persistRunning && persistDirty == old(persistDirty)
      ensures unchanged(`revision) && unchanged(`memory) && unchanged(`disk)
    {
      if persistStopped || !persistDirty {
        persistRunning := false;
        writers := writers[gen := writers[gen].(pc := Leaving)];
        return false;
      }
      persistDirty := false;
      writers := writers[gen := writers[gen].(pc := Claimed)];
      return true;
    }

    /** The end of a turn: re-dirty on failure, and the delay before the next turn. */
    method WriterSettle(gen: nat, err: Option<Error>, elapsedMs: nat) returns (delay: nat)
      requires gen < |writers| && writers[gen].pc == Wrote(err)
      modifies this
      ensures Snapshot() == SettleSection(old(Snapshot()), gen, err)
      ensures err.None? ==> delay == DEBOUNCE_MS + elapsedMs
      ensures err.Some? ==> delay == Min(DEBOUNCE_MS * Pow2(old(persistFailures)), RETRY_CEILING_MS)
      ensures err.Some? ==> persistDirty && persistErr == err && persistFailures == old(persistFailures) + 1
      ensures err.None? ==> persistDirty == old(persistDirty) && persistErr == old(persistErr) && persistFailures == 0
      ensures unchanged(`revision) && unchanged(`memory) && unchanged(`disk)
    {
      if err.Some? {
        persistDirty := true;
        persistFailures := persistFailures + 1;
        persistErr := err;
        delay := PersistBackoff(persistFailures);
      } else {
        persistFailures := 0;
        delay := DEBOUNCE_MS + elapsedMs;
      }
      writers := writers[gen := writers[gen].(pc := Waiting)];
    }

    /** The locked half of stopPersistWriter: the done channel the caller then waits on. */
    method StopPersistWriter() returns (done: Option<nat>)
      modifies this
      ensures Snapshot() == StopSection(old(Snapshot()))
      ensures done == if writers == [] then None else Some(|writers| - 1)
      ensures persistStopped && persistDirty == old(persistDirty) && persistErr == old(persistErr)
      ensures unchanged(`revision) && unchanged(`memory) && unchanged(`disk)
    {
      done := if writers == [] then None else Some(|writers| - 1);
      if !persistStopped {
        persistStopped := true;
        if writers != [] {
          var last := |writers| - 1;
          writers := writers[last := writers[last].(stopCloses := writers[last].stopCloses + 1)];
        }
      }
    }

    /** The actions of one flush, given how its write would go. */
    static function FlushActions(dirty: bool, writeErr: Option<Error>): seq<Action> {
      if !dirty then [FlushLock, FlushClaim, FlushUnlock]
      else if writeErr.None? then [FlushLock, FlushClaim, FlushWrite(None), FlushUnlock]
      else [FlushLock, FlushClaim, FlushWrite(writeErr), FlushRestore, FlushUnlock]
    }

    /** A whole flush: the App ends where the protocol's flush actions end, the caller gets
        the flush's own failure or else the parked one, and a flush that reports no failure
        of its own has put every marked change on disk. */
    method FlushPersist(writeErr: Option<Error>) returns (err: Option<Error>)
      modifies this
      ensures Run(old(StateUnder(Free)), FlushActions(old(persistDirty), writeErr)) ==
              Some(StateUnder(Free))
      ensures err == if old(persistDirty) && writeErr.Some? then writeErr else old(persistErr)
      ensures old(persistDirty) && writeErr.None? ==> disk == memory && !persistDirty
    {
      ghost var s0 := StateUnder(Free);
      FlushRuns(s0, writeErr);
      hide Run;
      hide FlushActions;
      var dirty, pending := persistDirty, persistErr;
      persistDirty, persistErr := false, None;
      if !dirty {
        return pending;
      }
      if writeErr.Some? {
        persistDirty := true;
        return writeErr;
      }
      disk := memory;
      return pending;
    }
  }

  /** Where a flush ends. */
  function FlushEnd(s: State, writeErr: Option<Error>): State {
    var claimed := s.(f := FlushClaimSection(s.f), mu := Free);
    if !s.f.dirty then claimed
    else if writeErr.None? then claimed.(disk := s.memory)
    else claimed.(f := FlushRestoreSection(claimed.f))
  }

  lemma RunOne(s: State, a: Action, rest: seq<Action>, t: State)
    requires Enabled(s, a) && Step(s, a) == t
    ensures Run(s, [a] + rest) == Run(t, rest)
  {
    assert ([a] + rest)[1..] == rest;
    hide Step;
  }

  lemma FlushStarts(s: State, rest: seq<Action>)
    requires s.mu == Free
    ensures Run(s, [FlushLock, FlushClaim] + rest) ==
            Run(s.(f := FlushClaimSection(s.f), mu := Flush(if s.f.dirty then ClaimedDirty else Finished(true))), rest)
  {
    var t := s.(mu := Flush(Entered));
    var u := s.(f := FlushClaimSection(s.f), mu := Flush(if s.f.dirty then ClaimedDirty else Finished(true)));
    assert [FlushLock, FlushClaim] + rest == [FlushLock] + ([FlushClaim] + rest);
    RunOne(s, FlushLock, [FlushClaim] + rest, t);
    RunOne(t, FlushClaim, rest, u);
    hide Run;
  }

  lemma FlushEnds(s: State)
    requires s.mu.Flush? && s.mu.at.Finished?
    ensures Run(s, [FlushUnlock]) == Some(s.(mu := Free))
  {
    assert [FlushUnlock] + [] == [FlushUnlock];
    RunOne(s, FlushUnlock, [], s.(mu := Free));
  }

  lemma FlushFails(s: State, err: Option<Error>)
    requires s.mu == Flush(ClaimedDirty) && err.Some?
    ensures Run(s, [FlushWrite(err), FlushRestore, FlushUnlock]) ==
            Some(s.(f := FlushRestoreSection(s.f), mu := Free))
  {
    var t := s.(mu := Flush(WriteFailed));
    var u := t.(f := FlushRestoreSection(s.f), mu := Flush(Finished(false)));
    assert [FlushWrite(err)] + ([FlushRestore] + [FlushUnlock]) == [FlushWrite(err), FlushRestore, FlushUnlock];
    RunOne(s, FlushWrite(err), [FlushRestore] + [FlushUnlock], t);
    RunOne(t, FlushRestore, [FlushUnlock], u);
    hide Run;
    FlushEnds(u);
  }

  lemma FlushLands(s: State)
    requires s.mu == Flush(ClaimedDirty)
    ensures Run(s, [FlushWrite(None), FlushUnlock]) == Some(s.(disk := s.memory, mu := Free))
  {
    var t := s.(disk := s.memory, mu := Flush(Finished(true)));
    assert [FlushWrite(None)] + [FlushUnlock] == [FlushWrite(None), FlushUnlock];
    RunOne(s, FlushWrite(None), [FlushUnlock], t);
    hide Run;
    FlushEnds(t);
  }

  lemma FlushRuns(s: State, writeErr: Option<Error>)
    requires s.mu == Free
    ensures Run(s, App.FlushActions(s.f.dirty, writeErr)) == Some(FlushEnd(s, writeErr))
  {
    hide Run;
    hide FlushClaimSection;
    hide FlushRestoreSection;
    var u := s.(f := FlushClaimSection(s.f), mu := Flush(if s.f.dirty then ClaimedDirty else Finished(true)));
    if !s.f.dirty {
      FlushStarts(s, [FlushUnlock]);
      FlushEnds(u);
      assert [FlushLock, FlushClaim] + [FlushUnlock] == App.FlushActions(false, writeErr);
    } else if writeErr.None? {
      FlushStarts(s, [FlushWrite(None), FlushUnlock]);
      FlushLands(u);
      assert [FlushLock, FlushClaim] + [FlushWrite(None), FlushUnlock] == App.FlushActions(true, writeErr);
    } else {
      FlushStarts(s, [FlushWrite(writeErr), FlushRestore, FlushUnlock]);
      FlushFails(u, writeErr);
      assert [FlushLock, FlushClaim] + [FlushWrite(writeErr), FlushRestore, FlushUnlock] == App.FlushActions(true, writeErr);
    }
  }
}
