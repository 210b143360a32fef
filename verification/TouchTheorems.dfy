/** What the touch-calibration transaction keeps over whole runs, faults and crashes included. */
module TouchTheorems {
  import opened TouchCalibration

  // Durable actions account for every change of the documents.

  lemma {:induction false} ReplayConcat(disk: Disk, a: seq<Entry>, b: seq<Entry>)
    ensures Replay(disk, a + b) == Replay(Replay(disk, a), b)
    decreases |b|
  {
    if b == [] {
      assert a + b == a;
    } else {
      var init := b[..|b| - 1];
      ReplayConcat(disk, a, init);
      assert (a + b)[..|a + b| - 1] == a + init;
    }
  }

  function After(disk: Disk, entry: Entry): Disk {
    match entry
    case Applied(document) => disk.(effective := Some(document))
    case Committed(_, document) => disk.(persisted := Some(document))
    case _ => disk
  }

  lemma ReplayShort(disk: Disk, log: seq<Entry>)
    requires |log| <= 4
    ensures |log| == 0 ==> Replay(disk, log) == disk
    ensures |log| == 1 ==> Replay(disk, log) == After(disk, log[0])
    ensures |log| == 2 ==> Replay(disk, log) == After(After(disk, log[0]), log[1])
    ensures |log| == 3 ==> Replay(disk, log) == After(After(After(disk, log[0]), log[1]), log[2])
    ensures |log| == 4 ==> Replay(disk, log) == After(After(After(After(disk, log[0]), log[1]), log[2]), log[3])
  {
    if |log| > 0 {
      var init := log[..|log| - 1];
      ReplayShort(disk, init);
      assert Replay(disk, log) == After(Replay(disk, init), log[|log| - 1]);
    }
  }

  ghost predicate Faithful(s: State, step: Step) {
    step.state.disk == Replay(s.disk, step.log)
  }

  lemma RestoreFaithful(s: State, p: Preview, attempt: Attempt, after: Option<Basis>)
    ensures Faithful(s, Restore(s, p, attempt, after))
  {
    hide Replay, ApplyResult;
    ReplayShort(s.disk, Restore(s, p, attempt, after).log);
  }

  lemma PreviewFaithful(s: State, e: Event)
    requires e.PreviewCall?
    ensures Faithful(s, PreviewNext(s, e))
  {
    hide Replay, ApplyResult, Refusal;
    ReplayShort(s.disk, PreviewNext(s, e).log);
  }

  lemma ConfirmFaithful(s: State, e: Event)
    requires e.ConfirmCall?
    ensures Faithful(s, ConfirmNext(s, e))
  {
    hide Replay, Restore, Confirms;
    if s.preview.Some? { RestoreFaithful(s, s.preview.value, e.restore, e.after); }
    ReplayShort(s.disk, []);
    if |ConfirmNext(s, e).log| == 1 { ReplayShort(s.disk, ConfirmNext(s, e).log); }
  }

  lemma UndoFaithful(s: State, e: Event)
    requires e.UndoCall?
    ensures Faithful(s, UndoNext(s, e))
  {
    hide Replay, ApplyResult;
    ReplayShort(s.disk, UndoNext(s, e).log);
  }

  lemma BasisFaithful(s: State, step: Step, n: nat)
    requires Faithful(s, step) && n <= 2
    ensures step.state.disk == Replay(s.disk, step.log + if n == 0 then [] else if n == 1 then [BasisWritten] else [BasisWritten, BasisWritten])
  {
    hide Replay;
    var more := if n == 0 then [] else if n == 1 then [BasisWritten] else [BasisWritten, BasisWritten];
    ReplayConcat(s.disk, step.log, more);
    ReplayShort(step.state.disk, more);
  }

  lemma SetStateFaithful(s: State, e: Event)
    requires e.SetStateCall?
    ensures Faithful(s, SetStateNext(s, e))
  {
    hide Replay, Restore;
    ReplayShort(s.disk, []);
    var cleared := Step(s, Done, []);
    if s.preview.Some? && (e.calibration || e.rotation) {
      RestoreFaithful(s, s.preview.value, e.restore, e.after);
      cleared := Restore(s, s.preview.value, e.restore, e.after);
    }
    var n := (if e.calibration then 1 else 0) + (if e.rotation && e.rotationWrites then 1 else 0);
    BasisFaithful(s, cleared, n);
    assert cleared.log + [] == cleared.log && cleared.log + [BasisWritten] + [] == cleared.log + [BasisWritten];
    assert cleared.log + [] + [BasisWritten] == cleared.log + [BasisWritten];
    assert cleared.log + [BasisWritten] + [BasisWritten] == cleared.log + [BasisWritten, BasisWritten];
  }

  /** The two documents always are what the logged file replacements made of them. */
  lemma {:induction false} ReplayMatches(s: State, e: Event)
    ensures Next(s, e).state.disk == Replay(s.disk, Next(s, e).log)
  {
    hide Confirms, Near, Replay, PreviewNext, ConfirmNext, UndoNext, SetStateNext, Restore, NeedsRecovery;
    if e.Restart? {
      var log := Next(s, e.during).log;
      var done := if e.steps <= |log| then log[..e.steps] else log;
      var crashed := State(Replay(s.disk, done), None);
      var recovered := RecoverNext(crashed, e.recover);
      ReplayConcat(s.disk, done, recovered.log);
      ReplayShort(crashed.disk, recovered.log);
    } else {
      ReplayShort(s.disk, []);
      match e
      case PreviewCall(_, _, _, _, _, _, _) => PreviewFaithful(s, e);
      case ConfirmCall(_, _, _, _, _, _, _) => ConfirmFaithful(s, e);
      case UndoCall(_, _, _, _) => UndoFaithful(s, e);
      case SetStateCall(_, _, _, _, _, _, _, _) => SetStateFaithful(s, e);
      case CancelCall(_, restore, after) => if s.preview.Some? { RestoreFaithful(s, s.preview.value, restore, after); }
      case Tick(_, _, _, restore, after) => if s.preview.Some? { RestoreFaithful(s, s.preview.value, restore, after); }
      case Close(restore, after) => if s.preview.Some? { RestoreFaithful(s, s.preview.value, restore, after); }
      case _ => assert false;
    }
  }

  // Agreement of the two documents, and exactly which faults break it

  predicate Same(exact: bool, a: Matrix, b: Matrix) {
    if exact then a == b else Near(a, b)
  }

  /** With no preview the documents agree; with one, the effective document is the previewed one, one
      revision ahead, and the saved values are the persisted ones. `exact` asks for equal matrices
      instead of matrices within the code's tolerance. */
  predicate Consistent(exact: bool, s: State) {
    && s.disk.persisted.Some? && s.disk.effective.Some?
    && var p, e := s.disk.persisted.value, s.disk.effective.value;
       match s.preview
       case None => e.revision == p.revision && Same(exact, e.matrix, p.matrix)
       case Some(v) =>
         && e == Effective(v.revision, v.matrix) && v.revision == p.revision + 1
         && v.savedRevision == p.revision && Same(exact, v.savedMatrix, p.matrix)
  }

  /** The file was replaced but the apply was not confirmed. */
  predicate Torn(revision: nat, matrix: Matrix, attempt: Attempt) {
    !attempt.WriteFails? && ApplyResult(revision, matrix, attempt) != Done
  }

  /** Whether the event rolls the live preview back. */
  predicate RollsBack(s: State, e: Event) {
    && s.preview.Some?
    && var p := s.preview.value;
       match e
       case ConfirmCall(token, expired, basis, seen, _, _, _) =>
         token == p.token &&
         (expired || (basis.Some? && (basis.value != p.basis || (!seen.Unreadable? && !Confirms(seen, p.revision, p.matrix)))))
       case CancelCall(token, _, _) => token == p.token
       case Tick(_, _, _, _, _) => WatcherActs(s, e)
       case Close(_, _) => true
       case SetStateCall(calibration, rotation, ready, _, _, _, _, _) => ready && (calibration || rotation)
       case _ => false
  }

  predicate UndoProceeds(s: State) {
    && s.preview.None? && s.disk.persisted.Some? && s.disk.persisted.value.previous.Some?
    && s.disk.persisted.value.revision < MAX_REVISION
  }

  function PreviewMatrix(r: Request): Matrix
    requires r.useDefault || r.matrix.Accepted?
  {
    if r.useDefault then IDENTITY else r.matrix.matrix
  }

  /** The documents a process that died after `steps` durable actions leaves behind. */
  function Crashed(s: State, during: Event, steps: nat): Disk {
    var log := Next(s, during).log;
    Replay(s.disk, if steps <= |log| then log[..steps] else log)
  }

  /** What an event needs of its environment to leave the documents in agreement. */
  predicate Survives(s: State, e: Event) {
    if e.PreviewCall? then
      Refusal(s, e) == None ==>
        !(Torn(s.disk.effective.value.revision + 1, PreviewMatrix(e.request), e.forward) && e.rollback.WriteFails?)
    else if e.UndoCall? then
      UndoProceeds(s) ==>
        var p := s.disk.persisted.value;
        && !Torn(p.revision + 1, p.previous.value, e.forward)
        && (!e.forward.WriteFails? && !e.writes ==> !e.rollback.WriteFails?)
    else if e.Restart? then
      NeedsRecovery(Crashed(s, e.during, e.steps)) ==> !e.recover.WriteFails?
    else
      RollsBack(s, e) ==> !Torn(s.preview.value.savedRevision, s.preview.value.savedMatrix, e.restore)
  }

  lemma NearSymmetric(a: Matrix, b: Matrix)
    ensures Near(a, b) == Near(b, a)
  {
  }

  lemma NearReflexive(m: Matrix)
    ensures Near(m, m)
  {
  }

  lemma RestoreAgreement(exact: bool, s: State, p: Preview, attempt: Attempt, after: Option<Basis>)
    requires Consistent(exact, s) && s.preview == Some(p)
    ensures Consistent(exact, Restore(s, p, attempt, after).state) <==> !Torn(p.savedRevision, p.savedMatrix, attempt)
    ensures var st := Restore(s, p, attempt, after);
            st.state.preview.Some? ==> st.state.preview == Some(p) && st.result != Done
  {
    hide ApplyResult, Near;
  }

  lemma PreviewAgreement(exact: bool, s: State, e: Event)
    requires e.PreviewCall? && Consistent(exact, s)
    ensures Consistent(exact, Next(s, e).state) <==> Survives(s, e)
  {
    hide ApplyResult, Near, Refusal;
    if Refusal(s, e) == None {
      RefusalFacts(s, e);
    }
  }

  lemma RefusalFacts(s: State, e: Event)
    requires e.PreviewCall? && Refusal(s, e) == None
    ensures s.preview == None && s.disk.persisted.Some? && s.disk.effective.Some?
    ensures e.request.useDefault || e.request.matrix.Accepted?
    ensures e.basisAgain.Some? && s.disk.effective.value.revision < MAX_REVISION
    ensures e.request.expected == s.disk.effective.value.revision
  {
    hide Confirms;
  }

  lemma ConfirmAgreement(exact: bool, s: State, e: Event)
    requires e.ConfirmCall? && Consistent(exact, s)
    ensures Consistent(exact, Next(s, e).state) <==> Survives(s, e)
  {
    hide ApplyResult, Near, Restore, Confirms, Torn;
    if s.preview.Some? {
      NearReflexive(s.preview.value.matrix);
      RestoreAgreement(exact, s, s.preview.value, e.restore, e.after);
    }
  }

  lemma UndoAgreement(exact: bool, s: State, e: Event)
    requires e.UndoCall? && Consistent(exact, s)
    ensures Consistent(exact, Next(s, e).state) <==> Survives(s, e)
  {
    hide ApplyResult, Near;
    NearReflexive(s.disk.persisted.value.matrix);
    if s.disk.persisted.value.previous.Some? { NearReflexive(s.disk.persisted.value.previous.value); }
  }

  lemma SetStateAgreement(exact: bool, s: State, e: Event)
    requires e.SetStateCall? && Consistent(exact, s)
    ensures Consistent(exact, Next(s, e).state) <==> Survives(s, e)
  {
    hide ApplyResult, Near, Restore, Torn;
    if s.preview.Some? { RestoreAgreement(exact, s, s.preview.value, e.restore, e.after); }
  }

  lemma {:induction false} ReplayKeepsDocuments(disk: Disk, log: seq<Entry>)
    requires disk.persisted.Some? && disk.effective.Some?
    ensures Replay(disk, log).persisted.Some? && Replay(disk, log).effective.Some?
    decreases |log|
  {
    if log != [] { ReplayKeepsDocuments(disk, log[..|log| - 1]); }
  }

  /** Documents of one revision carry one matrix. */
  predicate Matched(disk: Disk) {
    disk.persisted.Some? && disk.effective.Some? && disk.persisted.value.revision == disk.effective.value.revision
    ==> disk.persisted.value.matrix == disk.effective.value.matrix
  }

  lemma PreviewMatched(s: State, e: Event, done: seq<Entry>)
    requires Consistent(true, s) && e.PreviewCall? && done <= PreviewNext(s, e).log
    ensures Matched(Replay(s.disk, done))
  {
    hide Replay, ApplyResult, Refusal, Near;
    if Refusal(s, e) == None { RefusalFacts(s, e); }
    ReplayShort(s.disk, done);
  }

  lemma UndoMatched(s: State, e: Event, done: seq<Entry>)
    requires Consistent(true, s) && e.UndoCall? && done <= UndoNext(s, e).log
    ensures Matched(Replay(s.disk, done))
  {
    hide Replay, ApplyResult, Near;
    ReplayShort(s.disk, done);
  }

  lemma SetStateMatched(s: State, e: Event, done: seq<Entry>)
    requires Consistent(true, s) && e.SetStateCall? && done <= SetStateNext(s, e).log
    ensures Matched(Replay(s.disk, done))
  {
    hide Replay, ApplyResult, Near;
    ReplayShort(s.disk, done);
  }

  lemma CallMatched(s: State, e: Event, done: seq<Entry>)
    requires Consistent(true, s) && (e.ConfirmCall? || e.CancelCall? || e.Tick? || e.Close?) && done <= Next(s, e).log
    ensures Matched(Replay(s.disk, done))
  {
    hide Replay, ApplyResult, Confirms, Near, WatcherActs;
    if e.Tick? && WatcherActs(s, e) { ActsOnPreview(s, e); }
    CallLogsAreShort(s, e);
    ReplayShort(s.disk, done);
  }

  lemma {:induction false} RecoveryMatched(s: State, e: Event)
    requires Consistent(true, s) && e.Restart?
    ensures Matched(Next(s, e).state.disk)
    decreases e, 0
  {
    hide ApplyResult, Near, Replay, Crashed;
    CrashMatched(s, e.during, e.steps);
    CrashedIs(s, e.during, e.steps);
  }

  lemma CrashedIs(s: State, during: Event, steps: nat)
    ensures var log := Next(s, during).log;
            Crashed(s, during, steps) == Replay(s.disk, if steps <= |log| then log[..steps] else log)
  {
  }

  /** Whatever event dies after any number of durable actions, documents of one revision still carry one matrix. */
  lemma {:induction false} CrashMatched(s: State, during: Event, steps: nat)
    requires Consistent(true, s)
    ensures Matched(Crashed(s, during, steps))
    decreases during, 1
  {
    hide Replay, ApplyResult, PreviewNext, ConfirmNext, UndoNext, SetStateNext, WatchNext, Restore, RecoverNext, Near, Consistent, Matched;
    var log := Next(s, during).log;
    var done := if steps <= |log| then log[..steps] else log;
    NextCases(s, during);
    if during.Restart? {
      if |done| == |log| {
        assert done == log;
        ReplayMatches(s, during);
        RecoveryMatched(s, during);
      } else {
        RestartPrefix(s, during, steps);
        CrashMatched(s, during.during, steps);
      }
    } else if during.PreviewCall? {
      PreviewMatched(s, during, done);
    } else if during.UndoCall? {
      UndoMatched(s, during, done);
    } else if during.SetStateCall? {
      SetStateMatched(s, during, done);
    } else {
      CallMatched(s, during, done);
    }
  }

  lemma RestartAgreement(exact: bool, s: State, e: Event)
    requires e.Restart? && Consistent(exact, s)
    ensures Consistent(exact, Next(s, e).state) <==> Survives(s, e)
  {
    hide ApplyResult, Replay, Near;
    var log := Next(s, e.during).log;
    ReplayKeepsDocuments(s.disk, if e.steps <= |log| then log[..e.steps] else log);
    var disk := Crashed(s, e.during, e.steps);
    if exact { CrashMatched(s, e.during, e.steps); }
    NearReflexive(disk.persisted.value.matrix);
    NearSymmetric(disk.persisted.value.matrix, disk.effective.value.matrix);
  }

  lemma RollbackAgreement(exact: bool, s: State, e: Event)
    requires (e.CancelCall? || e.Close?) && Consistent(exact, s)
    ensures Consistent(exact, Next(s, e).state) <==> Survives(s, e)
  {
    hide Restore, Torn, Consistent;
    if s.preview.Some? { RestoreAgreement(exact, s, s.preview.value, e.restore, e.after); }
  }

  lemma WatchAgreement(exact: bool, s: State, e: Event)
    requires e.Tick? && Consistent(exact, s)
    ensures Consistent(exact, Next(s, e).state) <==> Survives(s, e)
  {
    hide Restore, Torn, Consistent, WatcherActs;
    if WatcherActs(s, e) {
      ActsOnPreview(s, e);
      var p := s.preview.value;
      RestoreAgreement(exact, s, p, e.restore, e.after);
      Unwatched(exact, Restore(s, p, e.restore, e.after).state, p);
    }
  }

  lemma ActsOnPreview(s: State, e: Event)
    requires e.Tick? && WatcherActs(s, e)
    ensures s.preview.Some?
  {
  }

  lemma Unwatched(exact: bool, s: State, p: Preview)
    ensures s.preview == Some(p) ==>
              Consistent(exact, s.(preview := Some(p.(watched := false)))) == Consistent(exact, s)
  {
  }

  lemma NextCases(s: State, e: Event)
    ensures e.PreviewCall? ==> Next(s, e) == PreviewNext(s, e)
    ensures e.ConfirmCall? ==> Next(s, e) == ConfirmNext(s, e)
    ensures e.UndoCall? ==> Next(s, e) == UndoNext(s, e)
    ensures e.SetStateCall? ==> Next(s, e) == SetStateNext(s, e)
    ensures e.Tick? ==> Next(s, e) == WatchNext(s, e)
  {
  }

  /** One event keeps the documents in agreement if and only if its environment meets `Survives`. */
  lemma AgreementStep(exact: bool, s: State, e: Event)
    requires Consistent(exact, s)
    ensures Consistent(exact, Next(s, e).state) <==> Survives(s, e)
  {
    hide Next, Survives, Consistent;
    if e.PreviewCall? {
      PreviewAgreement(exact, s, e);
    } else if e.ConfirmCall? {
      ConfirmAgreement(exact, s, e);
    } else if e.UndoCall? {
      UndoAgreement(exact, s, e);
    } else if e.SetStateCall? {
      SetStateAgreement(exact, s, e);
    } else if e.Restart? {
      RestartAgreement(exact, s, e);
    } else if e.Tick? {
      WatchAgreement(exact, s, e);
    } else {
      RollbackAgreement(exact, s, e);
    }
  }

  ghost predicate AllSurvive(s: State, events: seq<Event>) {
    forall k | 0 <= k < |events| :: Survives(Run(s, events[..k]).state, events[k])
  }

  lemma SurviveSplit(s: State, events: seq<Event>)
    requires events != []
    ensures var n := |events| - 1;
            AllSurvive(s, events) <==>
              AllSurvive(s, events[..n]) && Survives(Run(s, events[..n]).state, events[n])
  {
    hide Survives, Run;
    var n := |events| - 1;
    var init := events[..n];
    assert forall k | 0 <= k < n :: init[..k] == events[..k] && init[k] == events[k];
    if AllSurvive(s, events) {
      forall k | 0 <= k < n
        ensures Survives(Run(s, init[..k]).state, init[k])
      {
        assert Survives(Run(s, events[..k]).state, events[k]);
      }
    }
    if AllSurvive(s, init) && Survives(Run(s, init).state, events[n]) {
      forall k | 0 <= k <= n
        ensures Survives(Run(s, events[..k]).state, events[k])
      {
        if k < n { assert Survives(Run(s, init[..k]).state, init[k]); }
      }
    }
  }

  /** Agreement before the first event and after every one. */
  ghost predicate AlwaysConsistent(exact: bool, s: State, events: seq<Event>) {
    forall k | 0 <= k <= |events| :: Consistent(exact, Run(s, events[..k]).state)
  }

  lemma AlwaysSplit(exact: bool, s: State, events: seq<Event>)
    requires events != []
    ensures AlwaysConsistent(exact, s, events) <==>
              AlwaysConsistent(exact, s, events[..|events| - 1]) && Consistent(exact, Run(s, events).state)
  {
    hide Consistent, Run;
    var init := events[..|events| - 1];
    assert events[..|events|] == events;
    assert forall k | 0 <= k < |events| :: init[..k] == events[..k];
    if AlwaysConsistent(exact, s, events) {
      forall k | 0 <= k <= |init|
        ensures Consistent(exact, Run(s, init[..k]).state)
      {
        assert Consistent(exact, Run(s, events[..k]).state);
      }
    }
    if AlwaysConsistent(exact, s, init) && Consistent(exact, Run(s, events).state) {
      forall k | 0 <= k <= |events|
        ensures Consistent(exact, Run(s, events[..k]).state)
      {
        if k < |events| { assert Consistent(exact, Run(s, init[..k]).state); }
      }
    }
  }

  /** The documents agree throughout a run if and only if each of its events survives. */
  lemma {:induction false} AgreementRun(exact: bool, s: State, events: seq<Event>)
    requires Consistent(exact, s)
    ensures AllSurvive(s, events) <==> AlwaysConsistent(exact, s, events)
    decreases |events|
  {
    hide Consistent, Survives, Next, AllSurvive, AlwaysConsistent;
    if events == [] {
      NothingRun(exact, s);
    } else {
      var n := |events| - 1;
      AgreementRun(exact, s, events[..n]);
      SurviveSplit(s, events);
      AlwaysSplit(exact, s, events);
      if AlwaysConsistent(exact, s, events[..n]) {
        LastConsistent(exact, s, events[..n]);
        AgreementStep(exact, Run(s, events[..n]).state, events[n]);
      }
    }
  }

  lemma NothingRun(exact: bool, s: State)
    requires Consistent(exact, s)
    ensures AllSurvive(s, []) && AlwaysConsistent(exact, s, [])
  {
  }

  lemma LastConsistent(exact: bool, s: State, events: seq<Event>)
    requires AlwaysConsistent(exact, s, events)
    ensures Consistent(exact, Run(s, events).state)
  {
    hide Consistent, Run;
    assert events[..|events|] == events;
  }

  /** Rollbacks that are made succeed, and so does the apply of an undo. */
  predicate RollbacksSucceed(s: State, e: Event) {
    if e.PreviewCall? then
      Refusal(s, e) == None ==>
        ApplyResult(s.disk.effective.value.revision, s.disk.effective.value.matrix, e.rollback) == Done
    else if e.UndoCall? then
      UndoProceeds(s) ==>
        var p := s.disk.persisted.value;
        && ApplyResult(p.revision + 1, p.previous.value, e.forward) == Done
        && ApplyResult(p.revision, p.matrix, e.rollback) == Done
    else if e.Restart? then
      var disk := Crashed(s, e.during, e.steps);
      NeedsRecovery(disk) ==> ApplyResult(disk.persisted.value.revision, disk.persisted.value.matrix, e.recover) == Done
    else
      RollsBack(s, e) ==> ApplyResult(s.preview.value.savedRevision, s.preview.value.savedMatrix, e.restore) == Done
  }

  lemma RollbacksSurvive(s: State, e: Event)
    requires RollbacksSucceed(s, e)
    ensures Survives(s, e)
  {
    hide Confirms, NeedsRecovery, Crashed, RollsBack;
  }

  ghost predicate AllRollBack(s: State, events: seq<Event>) {
    forall k | 0 <= k < |events| :: RollbacksSucceed(Run(s, events[..k]).state, events[k])
  }

  /** Failing persistent writes and a failing forward apply of a preview are tolerated: in every run whose rollbacks and
      undo applies succeed, the documents agree throughout, in revision and matrix. */
  lemma RollbacksSuffice(exact: bool, s: State, events: seq<Event>)
    requires Consistent(exact, s) && AllRollBack(s, events)
    ensures AlwaysConsistent(exact, s, events)
  {
    hide Consistent, Survives, RollbacksSucceed, AlwaysConsistent, Run;
    forall k | 0 <= k < |events|
      ensures Survives(Run(s, events[..k]).state, events[k])
    {
      RollbacksSurvive(Run(s, events[..k]).state, events[k]);
    }
    AgreementRun(exact, s, events);
  }

  // `RollbacksSucceed` leaves out a rollback that fails after it replaced the file.

  /** A cancel whose reload fails, then a confirm: both documents end without a preview and disagree. */
  lemma FailedCancelThenConfirm(s: State, e: Attempt, after: Basis)
    requires Consistent(true, s) && s.preview.Some? && e.ReloadFails?
    requires s.preview.value.basis == after
    ensures var p := s.preview.value;
            var cancel := CancelCall(p.token, e, Some(after));
            var confirm := ConfirmCall(p.token, false, Some(after), Receipt(p.revision, p.matrix), e, true, Some(after));
            var end := Run(s, [cancel, confirm]);
            && end.result == Done && end.state.preview == None
            && end.state.disk.persisted.Some? && end.state.disk.effective.Some?
            && end.state.disk.persisted.value.revision == end.state.disk.effective.value.revision + 1
  {
    var p := s.preview.value;
    NearReflexive(p.matrix);
    var cancel := CancelCall(p.token, e, Some(after));
    var confirm := ConfirmCall(p.token, false, Some(after), Receipt(p.revision, p.matrix), e, true, Some(after));
    assert [cancel, confirm][..1] == [cancel] && [cancel][..0] == [];
    assert Run(s, [cancel]).state == Next(s, cancel).state;
  }

  // Revisions, under every fault

  /** Holds whatever fails: the effective revision is at most one behind the persisted one. */
  predicate Bounded(s: State) {
    && (s.disk.effective.Some? ==> s.disk.effective.value.revision <= MAX_REVISION)
    && (s.disk.persisted.Some? ==>
          && s.disk.persisted.value.revision <= MAX_REVISION
          && (s.disk.effective.Some? ==> s.disk.persisted.value.revision <= s.disk.effective.value.revision + 1))
    && (s.preview.Some? ==>
          && var p := s.preview.value;
          && s.disk.persisted.Some? && s.disk.effective.Some?
          && p.revision == p.savedRevision + 1 <= MAX_REVISION
          && s.disk.persisted.value.revision <= p.revision
          && s.disk.effective.value.revision in {p.savedRevision, p.revision})
  }

  /** The persisted document survives, and its revision does not decrease. */
  predicate NotBefore(a: Disk, b: Disk) {
    a.persisted.Some? ==> b.persisted.Some? && a.persisted.value.revision <= b.persisted.value.revision
  }

  predicate Advances(a: State, b: State) {
    Bounded(b) && NotBefore(a.disk, b.disk)
  }

  lemma RestoreAdvances(s: State, p: Preview, attempt: Attempt, after: Option<Basis>)
    requires Bounded(s) && s.preview == Some(p)
    ensures var st := Restore(s, p, attempt, after).state;
            Advances(s, st) && (st.preview.Some? ==> st.preview == Some(p))
  {
    hide ApplyResult;
  }

  lemma PreviewAdvances(s: State, e: Event)
    requires e.PreviewCall? && Bounded(s)
    ensures Advances(s, Next(s, e).state)
  {
    hide ApplyResult, Refusal;
    if Refusal(s, e) == None { RefusalFacts(s, e); }
  }

  lemma ConfirmAdvances(s: State, e: Event)
    requires e.ConfirmCall? && Bounded(s)
    ensures Advances(s, Next(s, e).state)
  {
    hide ApplyResult, Restore, Confirms;
    if s.preview.Some? { RestoreAdvances(s, s.preview.value, e.restore, e.after); }
  }

  lemma UndoAdvances(s: State, e: Event)
    requires e.UndoCall? && Bounded(s)
    ensures Advances(s, Next(s, e).state)
  {
    hide ApplyResult;
  }

  lemma SetStateAdvances(s: State, e: Event)
    requires e.SetStateCall? && Bounded(s)
    ensures Advances(s, Next(s, e).state)
  {
    hide Restore;
    if s.preview.Some? { RestoreAdvances(s, s.preview.value, e.restore, e.after); }
  }

  lemma {:induction false} RestartAdvances(s: State, e: Event)
    requires e.Restart? && Bounded(s)
    ensures Advances(s, Next(s, e).state)
    decreases e, 0
  {
    hide ApplyResult, Near;
    CrashAdvances(s, e.during, e.steps);
  }

  lemma RollbackAdvances(s: State, e: Event)
    requires (e.CancelCall? || e.Tick? || e.Close?) && Bounded(s)
    ensures Advances(s, Next(s, e).state)
  {
    hide Restore;
    if s.preview.Some? { RestoreAdvances(s, s.preview.value, e.restore, e.after); }
  }

  lemma {:induction false} StepAdvances(s: State, e: Event)
    requires Bounded(s)
    ensures Advances(s, Next(s, e).state)
    decreases e, 1
  {
    hide Next, Advances;
    if e.PreviewCall? {
      PreviewAdvances(s, e);
    } else if e.ConfirmCall? {
      ConfirmAdvances(s, e);
    } else if e.UndoCall? {
      UndoAdvances(s, e);
    } else if e.SetStateCall? {
      SetStateAdvances(s, e);
    } else if e.Restart? {
      RestartAdvances(s, e);
    } else {
      RollbackAdvances(s, e);
    }
  }

  /** What a crash leaves after any number of durable actions of any event. */
  lemma {:induction false} CrashAdvances(s: State, during: Event, steps: nat)
    requires Bounded(s)
    ensures Advances(s, State(Crashed(s, during, steps), None))
    decreases during, 2
  {
    hide Replay, ApplyResult, PreviewNext, ConfirmNext, UndoNext, SetStateNext, Restore, RecoverNext, Near;
    var log := Next(s, during).log;
    var done := if steps <= |log| then log[..steps] else log;
    if |done| == |log| {
      assert done == log;
      ReplayMatches(s, during);
      StepAdvances(s, during);
    } else if during.Restart? {
      RestartPrefix(s, during, steps);
      CrashAdvances(s, during.during, steps);
    } else if |done| == 0 {
      ReplayShort(s.disk, done);
    } else {
      CallCrashAdvances(s, during, done);
    }
  }

  /** A crash inside the recovery of a restart is a crash inside what that restart interrupted. */
  lemma RestartPrefix(s: State, e: Event, steps: nat)
    requires e.Restart? && steps < |Next(s, e).log|
    ensures Crashed(s, e, steps) == Crashed(s, e.during, steps) && steps <= |Next(s, e.during).log|
  {
    hide Replay, PreviewNext, ConfirmNext, UndoNext, SetStateNext, Restore, NeedsRecovery;
    var log := Next(s, e.during).log;
    var done := if e.steps <= |log| then log[..e.steps] else log;
    assert steps <= |done|;
    assert Next(s, e).log[..steps] == log[..steps];
  }

  lemma CallCrashAdvances(s: State, e: Event, done: seq<Entry>)
    requires Bounded(s) && !e.Restart? && 0 < |done| < |Next(s, e).log| && done == Next(s, e).log[..|done|]
    ensures Advances(s, State(Replay(s.disk, done), None))
  {
    hide Replay, Advances, PreviewNext, ConfirmNext, UndoNext, SetStateNext, Restore;
    NextCases(s, e);
    if e.PreviewCall? {
      PreviewCrash(s, e, done);
    } else if e.UndoCall? {
      UndoCrash(s, e, done);
    } else {
      RestoreCrash(s, e, done);
    }
  }

  lemma PreviewCrash(s: State, e: Event, done: seq<Entry>)
    requires Bounded(s) && e.PreviewCall? && 0 < |done| < |PreviewNext(s, e).log| && done == PreviewNext(s, e).log[..|done|]
    ensures Advances(s, State(Replay(s.disk, done), None))
  {
    hide Replay, ApplyResult, Refusal;
    if Refusal(s, e) == None { RefusalFacts(s, e); }
    ReplayShort(s.disk, done);
  }

  lemma UndoCrash(s: State, e: Event, done: seq<Entry>)
    requires Bounded(s) && e.UndoCall? && 0 < |done| < |UndoNext(s, e).log| && done == UndoNext(s, e).log[..|done|]
    ensures Advances(s, State(Replay(s.disk, done), None))
  {
    hide Replay, ApplyResult;
    ReplayShort(s.disk, done);
  }

  lemma RestoreCrash(s: State, e: Event, done: seq<Entry>)
    requires Bounded(s) && !e.PreviewCall? && !e.UndoCall? && !e.Restart?
    requires 0 < |done| < |Next(s, e).log| && done == Next(s, e).log[..|done|]
    ensures Advances(s, State(Replay(s.disk, done), None))
  {
    hide Replay, ApplyResult, Confirms;
    CallLogsAreShort(s, e);
    ReplayShort(s.disk, done);
  }

  lemma CallLogsAreShort(s: State, e: Event)
    requires !e.Restart?
    ensures |Next(s, e).log| <= 4
  {
  }

  /** In every run, with any faults and crashes, the persisted revision never decreases or passes 2^31-1. */
  lemma {:induction false} RevisionsAdvance(s: State, events: seq<Event>)
    requires Bounded(s)
    ensures Advances(s, Run(s, events).state)
    ensures forall k | 0 <= k <= |events| :: NotBefore(Run(s, events[..k]).state.disk, Run(s, events).state.disk)
    decreases |events|
  {
    hide Bounded, Next;
    if events == [] {
      assert events[..0] == [];
    } else {
      var n := |events| - 1;
      var init := events[..n];
      RevisionsAdvance(s, init);
      StepAdvances(Run(s, init).state, events[n]);
      forall k | 0 <= k <= |events|
        ensures NotBefore(Run(s, events[..k]).state.disk, Run(s, events).state.disk)
      {
        if k <= n { assert init[..k] == events[..k]; } else { assert events[..k] == events; }
      }
    }
  }

  // Where the revisions have to start

  /** No revision is above the maximum, as the loader demands of both documents. */
  predicate Limited(disk: Disk) {
    && (disk.persisted.Some? ==> disk.persisted.value.revision <= MAX_REVISION)
    && (disk.effective.Some? ==> disk.effective.value.revision <= MAX_REVISION)
  }

  predicate NotAhead(disk: Disk) {
    disk.persisted.Some? && disk.effective.Some? ==> disk.persisted.value.revision <= disk.effective.value.revision + 1
  }

  /** Documents that agree may start a run. */
  lemma AgreeingIsBounded(exact: bool, s: State)
    requires Consistent(exact, s) && Limited(s.disk)
    ensures Bounded(s)
  {
    hide Same;
  }

  /** So may the documents of a process whose recovery succeeded. */
  lemma RecoveredIsBounded(s: State, attempt: Attempt)
    requires s.preview.None? && Limited(s.disk) && RecoverNext(s, attempt).result == Done
    ensures Bounded(RecoverNext(s, attempt).state)
  {
    hide Near, ApplyResult;
  }

  /** A preview of the default matrix and its confirmation, in an environment where nothing fails. */
  function PreviewAndConfirm(e: Effective, token: Token, basis: Basis): seq<Event> {
    var receipt := Receipt(e.revision + 1, IDENTITY);
    [PreviewCall(Request(e.revision, 1000, true, Absent, None), token, Receipt(e.revision, e.matrix), Some(basis), Some(basis),
                 ReadsBack(receipt), WriteFails),
     ConfirmCall(token, false, Some(basis), receipt, WriteFails, true, Some(basis))]
  }

  /** With the persisted revision further ahead, as a failed recovery leaves it, a preview and a confirm that both
      succeed commit a lower revision. */
  lemma RevisionFallsBack(s: State, token: Token, basis: Basis)
    requires s.preview.None? && s.disk.persisted.Some? && s.disk.effective.Some?
    requires s.disk.effective.value.revision + 1 < s.disk.persisted.value.revision <= MAX_REVISION
    ensures var end := Run(s, PreviewAndConfirm(s.disk.effective.value, token, basis));
            && end.result == Done && end.state.disk.persisted.Some?
            && end.state.disk.persisted.value.revision == s.disk.effective.value.revision + 1
            && !NotBefore(s.disk, end.state.disk)
  {
    var e := s.disk.effective.value;
    NearReflexive(e.matrix);
    NearReflexive(IDENTITY);
    var events := PreviewAndConfirm(e, token, basis);
    assert events[..1] == [events[0]] && [events[0]][..0] == [];
    assert Run(s, [events[0]]).state == Next(s, events[0]).state;
  }

  /** In every run the persisted document stays, and its revision never decreases from any point to the end. */
  ghost predicate NeverDecreases(s: State) {
    forall events: seq<Event>, k: nat | k <= |events| ::
      NotBefore(Run(s, events[..k]).state.disk, Run(s, events).state.disk)
  }

  /** Without a preview, that is so if and only if the persisted revision starts at most one ahead. */
  lemma RevisionsNeedTheStart(s: State)
    requires s.preview.None? && Limited(s.disk)
    ensures NeverDecreases(s) <==> NotAhead(s.disk)
  {
    hide Run, Next, NotBefore;
    if NotAhead(s.disk) {
      forall events: seq<Event>, k: nat | k <= |events|
        ensures NotBefore(Run(s, events[..k]).state.disk, Run(s, events).state.disk)
      {
        RevisionsAdvance(s, events);
      }
    } else {
      var events := PreviewAndConfirm(s.disk.effective.value, "", Basis("", 0, 0));
      RevisionFallsBack(s, "", Basis("", 0, 0));
      assert events[..0] == [];
      NothingRuns(s);
      assert !NotBefore(Run(s, events[..0]).state.disk, Run(s, events).state.disk);
    }
  }

  lemma NothingRuns(s: State)
    ensures Run(s, []).state == s
  {
  }

  // Crashes

  lemma {:induction false} PersistedUnchanged(disk: Disk, log: seq<Entry>)
    requires forall k | 0 <= k < |log| :: !log[k].Committed?
    ensures Replay(disk, log).persisted == disk.persisted
    decreases |log|
  {
    if log != [] { PersistedUnchanged(disk, log[..|log| - 1]); }
  }

  ghost predicate OnlyCommit(log: seq<Entry>, k: nat) {
    k < |log| && log[k].Committed? && forall j | 0 <= j < |log| && j != k :: !log[j].Committed?
  }

  lemma CallCommitsOnce(s: State, e: Event, k: nat)
    requires !e.Restart? && k < |Next(s, e).log| && Next(s, e).log[k].Committed?
    ensures OnlyCommit(Next(s, e).log, k)
  {
    hide Confirms, ApplyResult, Refusal;
    if e.ConfirmCall? {
    } else if e.UndoCall? {
    } else {
      NoOtherCommits(s, e);
    }
  }

  lemma NoOtherCommits(s: State, e: Event)
    requires !e.Restart? && !e.ConfirmCall? && !e.UndoCall?
    ensures forall j | 0 <= j < |Next(s, e).log| :: !Next(s, e).log[j].Committed?
  {
    hide Confirms, ApplyResult, Refusal, Restore;
    if s.preview.Some? && !e.PreviewCall? { RestoreNeverCommits(s, s.preview.value, e.restore, e.after); }
  }

  lemma RestoreNeverCommits(s: State, p: Preview, attempt: Attempt, after: Option<Basis>)
    ensures var log := Restore(s, p, attempt, after).log;
            forall j | 0 <= j < |log| :: !log[j].Committed?
  {
    hide ApplyResult;
  }

  /** No event commits twice. */
  lemma {:induction false} OneCommit(s: State, e: Event, k: nat)
    requires k < |Next(s, e).log| && Next(s, e).log[k].Committed?
    ensures OnlyCommit(Next(s, e).log, k)
    decreases e
  {
    hide PreviewNext, ConfirmNext, UndoNext, SetStateNext, Restore, NeedsRecovery, Replay;
    if e.Restart? {
      var log := Next(s, e.during).log;
      var done := if e.steps <= |log| then log[..e.steps] else log;
      assert k < |done|;
      assert forall j | 0 <= j < |done| :: log[j] == done[j];
      OneCommit(s, e.during, k);
    } else {
      CallCommitsOnce(s, e, k);
    }
  }

  /** A crash between any two steps leaves the old persisted document or the new one. */
  lemma CrashIsAtomic(s: State, e: Event, steps: nat)
    ensures var left := Crashed(s, e, steps).persisted;
            left == s.disk.persisted || left == Next(s, e).state.disk.persisted
  {
    hide Next, Replay;
    var log := Next(s, e).log;
    var done, rest := if steps <= |log| then log[..steps] else log, if steps <= |log| then log[steps..] else [];
    assert log == done + rest;
    ReplayMatches(s, e);
    ReplayConcat(s.disk, done, rest);
    if k :| 0 <= k < |log| && log[k].Committed? {
      OneCommit(s, e, k);
      if k < |done| {
        assert forall j | 0 <= j < |rest| :: rest[j] == log[|done| + j];
        PersistedUnchanged(Replay(s.disk, done), rest);
      } else {
        PersistedUnchanged(s.disk, done);
      }
    } else {
      PersistedUnchanged(s.disk, done);
    }
  }

  /** If both documents exist, a recovery that succeeds makes the effective one agree with the persisted one. */
  lemma RecoveryAgrees(s: State, attempt: Attempt)
    requires s.disk.persisted.Some? && s.disk.effective.Some? && s.preview.None?
    requires RecoverNext(s, attempt).result == Done
    ensures Consistent(false, RecoverNext(s, attempt).state)
    ensures RecoverNext(s, attempt).state.disk.persisted == s.disk.persisted
  {
    hide ApplyResult, Near;
    NearReflexive(s.disk.persisted.value.matrix);
    NearSymmetric(s.disk.persisted.value.matrix, s.disk.effective.value.matrix);
  }

  // Tokens

  predicate Disturbs(entry: Entry) {
    entry.Issued? || entry.Committed? || entry.BasisWritten?
  }

  ghost predicate Quiet(log: seq<Entry>, i: int, j: int) {
    -1 <= i && j <= |log| && forall m | i < m < j :: !Disturbs(log[m])
  }

  /** The commit at `j` has its issue at `i`, with nothing issued, committed or basis-written in between. */
  ghost predicate Backed(log: seq<Entry>, i: int, j: int) {
    && 0 <= i < j < |log| && log[j].Committed? && log[j].owner.Some?
    && log[i] == Issued(log[j].owner.value) && Quiet(log, i, j)
  }

  ghost predicate CommitsBacked(log: seq<Entry>) {
    forall j | 0 <= j < |log| && log[j].Committed? && log[j].owner.Some? :: exists i :: Backed(log, i, j)
  }

  ghost predicate LiveBacked(s: State, log: seq<Entry>) {
    s.preview.Some? ==> exists i :: IssuedAt(s.preview.value.token, log, i)
  }

  ghost predicate IssuedAt(token: Token, log: seq<Entry>, i: int) {
    0 <= i < |log| && log[i] == Issued(token) && Quiet(log, i, |log|)
  }

  /** What one event does to tokens. */
  ghost predicate TokenStep(s: State, step: Step) {
    && (s.preview.Some? && step.state.preview.Some? ==>
          step.state.preview.value.token == s.preview.value.token && Quiet(step.log, -1, |step.log|))
    && (s.preview.None? ==> LiveBacked(step.state, step.log))
    && CommitsOwned(s, step.log)
  }

  ghost predicate CommitsOwned(s: State, log: seq<Entry>) {
    forall k | 0 <= k < |log| && log[k].Committed? && log[k].owner.Some? ::
      s.preview.Some? && log[k].owner.value == s.preview.value.token && Quiet(log, -1, k)
  }

  lemma RestoreTokens(s: State, p: Preview, attempt: Attempt, after: Option<Basis>)
    requires s.preview == Some(p)
    ensures TokenStep(s, Restore(s, p, attempt, after))
    ensures Restore(s, p, attempt, after).result == Done ==> Restore(s, p, attempt, after).state.preview.None?
    ensures var log := Restore(s, p, attempt, after).log;
            forall j | 0 <= j < |log| :: !log[j].Committed?
  {
    hide ApplyResult;
  }

  lemma PreviewTokens(s: State, e: Event)
    requires e.PreviewCall?
    ensures TokenStep(s, Next(s, e))
  {
    hide ApplyResult, Refusal;
    if Refusal(s, e) == None {
      RefusalFacts(s, e);
      var step := Next(s, e);
      if step.state.preview.Some? { assert IssuedAt(e.token, step.log, 1); }
    }
  }

  lemma CallTokens(s: State, e: Event)
    requires e.ConfirmCall? || e.UndoCall? || e.CancelCall? || e.Tick? || e.Close?
    ensures TokenStep(s, Next(s, e))
  {
    hide ApplyResult, Restore, Confirms;
    if s.preview.Some? && !e.UndoCall? { RestoreTokens(s, s.preview.value, e.restore, e.after); }
  }

  lemma SetStateTokens(s: State, e: Event)
    requires e.SetStateCall?
    ensures TokenStep(s, Next(s, e))
  {
    hide ApplyResult, Restore;
    NoOtherCommits(s, e);
    if s.preview.Some? { RestoreTokens(s, s.preview.value, e.restore, e.after); }
  }

  lemma OwnedPrefix(s: State, log: seq<Entry>, steps: nat, more: seq<Entry>)
    requires CommitsOwned(s, log) && steps <= |log|
    requires forall j | 0 <= j < |more| :: !more[j].Committed?
    ensures CommitsOwned(s, log[..steps] + more)
  {
    hide Disturbs;
    var all := log[..steps] + more;
    forall k | 0 <= k < |all| && all[k].Committed? && all[k].owner.Some?
      ensures s.preview.Some? && all[k].owner.value == s.preview.value.token && Quiet(all, -1, k)
    {
      assert k < steps && all[k] == log[k];
      assert forall m | 0 <= m < k :: all[m] == log[m];
    }
  }

  lemma {:induction false} StepTokens(s: State, e: Event)
    ensures TokenStep(s, Next(s, e))
    decreases e
  {
    hide PreviewNext, ConfirmNext, UndoNext, SetStateNext, Restore, CommitsOwned, ApplyResult, Replay, NeedsRecovery;
    if e.Restart? {
      StepTokens(s, e.during);
      var log := Next(s, e.during).log;
      var steps := if e.steps <= |log| then e.steps else |log|;
      assert log[..|log|] == log;
      var more := RecoverNext(State(Replay(s.disk, log[..steps]), None), e.recover).log;
      OwnedPrefix(s, log, steps, more);
    } else if e.PreviewCall? {
      PreviewTokens(s, e);
    } else if e.SetStateCall? {
      SetStateTokens(s, e);
    } else {
      CallTokens(s, e);
    }
  }

  lemma LiveExtends(s: State, log: seq<Entry>, step: Step)
    requires LiveBacked(s, log) && TokenStep(s, step)
    ensures LiveBacked(step.state, log + step.log)
  {
    hide Disturbs, CommitsOwned;
    var all := log + step.log;
    if step.state.preview.Some? {
      var token := step.state.preview.value.token;
      if s.preview.Some? {
        var i :| IssuedAt(token, log, i);
        QuietJoin(log, step.log, i, |step.log|);
        assert IssuedAt(token, all, i);
      } else {
        var i :| IssuedAt(token, step.log, i);
        QuietShift(log, step.log, i, |step.log|);
        assert IssuedAt(token, all, |log| + i);
      }
    }
  }

  lemma QuietJoin(a: seq<Entry>, b: seq<Entry>, i: int, k: int)
    requires 0 <= i < |a| && Quiet(a, i, |a|) && 0 <= k && Quiet(b, -1, k)
    ensures Quiet(a + b, i, |a| + k)
  {
    hide Disturbs;
    forall m | i < m < |a| + k
      ensures !Disturbs((a + b)[m])
    {
      assert (a + b)[m] == if m < |a| then a[m] else b[m - |a|];
    }
  }

  lemma QuietShift(a: seq<Entry>, b: seq<Entry>, i: int, k: int)
    requires 0 <= i && Quiet(b, i, k)
    ensures Quiet(a + b, |a| + i, |a| + k)
  {
    hide Disturbs;
    forall m | |a| + i < m < |a| + k
      ensures !Disturbs((a + b)[m])
    {
      assert (a + b)[m] == b[m - |a|];
    }
  }

  lemma CommitsExtend(s: State, log: seq<Entry>, step: Step)
    requires CommitsBacked(log) && LiveBacked(s, log) && TokenStep(s, step)
    ensures CommitsBacked(log + step.log)
  {
    hide Disturbs;
    var all := log + step.log;
    forall j | 0 <= j < |all| && all[j].Committed? && all[j].owner.Some?
      ensures exists i :: Backed(all, i, j)
    {
      if j < |log| {
        var i :| Backed(log, i, j);
        assert forall m | i < m < j :: all[m] == log[m];
        assert Backed(all, i, j);
      } else {
        var k := j - |log|;
        assert all[j] == step.log[k];
        var i :| IssuedAt(s.preview.value.token, log, i);
        QuietJoin(log, step.log, i, k);
        assert Backed(all, i, j);
      }
    }
  }

  /** In every run, each commit of a preview follows the issue of its token with no other issue, commit or
      basis write in between. */
  lemma {:induction false} CommitsFollowIssues(s: State, events: seq<Event>)
    requires s.preview.None?
    ensures CommitsBacked(Run(s, events).log) && LiveBacked(Run(s, events).state, Run(s, events).log)
    decreases |events|
  {
    hide Next, CommitsBacked, LiveBacked, TokenStep;
    if events == [] {
      assert CommitsBacked([]) && LiveBacked(s, []) by { NothingYet(s); }
    } else {
      var n := |events| - 1;
      CommitsFollowIssues(s, events[..n]);
      var before := Run(s, events[..n]);
      StepTokens(before.state, events[n]);
      LiveExtends(before.state, before.log, Next(before.state, events[n]));
      CommitsExtend(before.state, before.log, Next(before.state, events[n]));
    }
  }

  lemma NothingYet(s: State)
    requires s.preview.None?
    ensures CommitsBacked([]) && LiveBacked(s, [])
  {
  }

  /** When no token is issued twice, none is committed twice. */
  lemma TokensCommitOnce(s: State, events: seq<Event>, a: int, b: int)
    requires s.preview.None?
    requires var log := Run(s, events).log;
             && (forall i, j | 0 <= i < j < |log| && log[i].Issued? && log[j].Issued? :: log[i].token != log[j].token)
             && 0 <= a < b < |log| && log[a].Committed? && log[b].Committed? && log[a].owner.Some?
    ensures Run(s, events).log[a].owner != Run(s, events).log[b].owner
  {
    hide Run;
    CommitsFollowIssues(s, events);
    var log := Run(s, events).log;
    if log[b].owner.Some? {
      var i :| Backed(log, i, a);
      var j :| Backed(log, j, b);
    }
  }
}
