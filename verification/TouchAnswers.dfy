/** When each touch-calibration call succeeds and what it then leaves, in terms of the documents and of what the
    environment showed; and what the previous matrix of a persisted document is. */
module TouchAnswers {
  import opened TouchCalibration
  import opened TouchTheorems

  /** The receipt names this revision and, within 1e-9, these coefficients. */
  predicate Shown(receipt: Receipt, revision: nat, matrix: Matrix) {
    && receipt.Receipt? && receipt.revision == revision
    && forall i | 0 <= i < 9 :: -1000 <= receipt.matrix[i] - matrix[i] <= 1000
  }

  lemma ShownIsConfirmed(receipt: Receipt, revision: nat, matrix: Matrix)
    ensures Confirms(receipt, revision, matrix) <==> Shown(receipt, revision, matrix)
  {
  }

  lemma ApplyIsDone(revision: nat, matrix: Matrix, attempt: Attempt)
    ensures ApplyResult(revision, matrix, attempt) == Done <==> attempt.ReadsBack? && Shown(attempt.receipt, revision, matrix)
  {
    hide Confirms, Shown;
    if attempt.ReadsBack? { ShownIsConfirmed(attempt.receipt, revision, matrix); }
  }

  /** Rolling back a preview: the file was replaced, reloaded and read back. */
  predicate RolledBack(p: Preview, attempt: Attempt) {
    attempt.ReadsBack? && Shown(attempt.receipt, p.savedRevision, p.savedMatrix)
  }

  // Preview

  /** The matrix a request asks for: the identity in units of 1e-12, or its own. */
  function Asked(r: Request): Matrix
    requires r.useDefault || r.matrix.Accepted?
  {
    if r.useDefault then [1_000_000_000_000, 0, 0, 0, 1_000_000_000_000, 0, 0, 0, 1_000_000_000_000] else r.matrix.matrix
  }

  /** The request is in order: nobody previews, the display shows the present document, the request names its revision, a
      permitted duration, and either nothing else or a valid matrix for the basis that the display has. */
  predicate InOrder(s: State, e: Event)
    requires e.PreviewCall?
  {
    && s.preview.None? && s.disk.persisted.Some? && s.disk.effective.Some? && e.basis.Some? && e.basisAgain.Some?
    && Shown(e.seen, s.disk.effective.value.revision, s.disk.effective.value.matrix)
    && e.request.expected == s.disk.effective.value.revision < 0x7FFF_FFFF
    && 1000 <= e.request.ttlMs <= 60000
    && if e.request.useDefault then e.request.matrix.Absent? && e.request.basis.None?
       else e.request.matrix.Accepted? && e.request.basis == e.basisAgain
  }

  lemma RefusedUnlessInOrder(s: State, e: Event)
    requires e.PreviewCall?
    ensures Refusal(s, e) == None <==> InOrder(s, e)
  {
    hide Confirms, Shown;
    if s.disk.effective.Some? { ShownIsConfirmed(e.seen, s.disk.effective.value.revision, s.disk.effective.value.matrix); }
  }

  /** A preview is granted exactly when the request is in order and its matrix was read back; then it is live as it was
      asked for, one revision on, over the values and the basis it was granted on. Otherwise no preview appears. */
  lemma PreviewAnswer(s: State, e: Event)
    requires e.PreviewCall?
    ensures var after := Next(s, e);
            && after.state.disk.persisted == s.disk.persisted
            && (after.result == Done <==> Issued(e.token) in after.log)
            && (after.result == Done <==>
                  InOrder(s, e) && e.forward.ReadsBack?
                  && Shown(e.forward.receipt, s.disk.effective.value.revision + 1, Asked(e.request)))
            && if after.result == Done then
                 var current := s.disk.effective.value;
                 && after.state.disk.effective == Some(Effective(current.revision + 1, Asked(e.request)))
                 && after.state.preview == Some(Preview(e.token, current.revision + 1, Asked(e.request), current.revision,
                                                        current.matrix, e.basisAgain.value, true))
               else after.state.preview == s.preview
  {
    hide ApplyResult, Refusal, Shown;
    RefusedUnlessInOrder(s, e);
    if InOrder(s, e) { ApplyIsDone(s.disk.effective.value.revision + 1, Asked(e.request), e.forward); }
  }

  /** A request that is not in order touches no file. */
  lemma RefusedPreview(s: State, e: Event)
    requires e.PreviewCall? && !InOrder(s, e)
    ensures Next(s, e).state == s && Next(s, e).log == [] && Next(s, e).result != Done
  {
    hide Refusal;
    RefusedUnlessInOrder(s, e);
  }

  // Confirm

  /** The live preview has this token. */
  predicate Names(s: State, token: Token) {
    s.preview.Some? && s.preview.value.token == token
  }

  /** A confirm commits exactly when it names the live preview in time, the basis is the one it was granted on, the
      display still shows it, and the file was written. It then persists the previewed values with the saved matrix as the
      previous one. Otherwise the persisted document stays and the call fails. */
  lemma ConfirmAnswer(s: State, e: Event)
    requires e.ConfirmCall?
    ensures var after := Next(s, e);
            if Names(s, e.token) && !e.expired && e.basis == Some(s.preview.value.basis)
               && Shown(e.seen, s.preview.value.revision, s.preview.value.matrix) && e.writes then
              var p := s.preview.value;
              && after.state == State(Disk(Some(Persisted(p.revision, p.matrix, Some(p.savedMatrix))), s.disk.effective), None)
              && (after.result == Done <==> e.after.Some?)
            else after.state.disk.persisted == s.disk.persisted && after.result != Done
  {
    hide Restore, Confirms, Shown;
    if s.preview.Some? {
      var p := s.preview.value;
      ShownIsConfirmed(e.seen, p.revision, p.matrix);
      NothingShown(p.revision, p.matrix);
      RestoreKeepsPersisted(s, p, e.restore, e.after);
    }
  }

  lemma RestoreKeepsPersisted(s: State, p: Preview, attempt: Attempt, after: Option<Basis>)
    ensures Restore(s, p, attempt, after).state.disk.persisted == s.disk.persisted
  {
  }

  /** What a rollback of the live preview leaves. */
  lemma RestoreAnswer(s: State, p: Preview, attempt: Attempt, after: Option<Basis>)
    requires s.preview == Some(p)
    ensures var step := Restore(s, p, attempt, after);
            if RolledBack(p, attempt) then
              && step.state == State(s.disk.(effective := Some(Effective(p.savedRevision, p.savedMatrix))), None)
              && (step.result == Done <==> after.Some?)
            else step.state.preview == s.preview && step.state.disk.persisted == s.disk.persisted && step.result != Done
  {
    hide ApplyResult, Shown;
    ApplyIsDone(p.savedRevision, p.savedMatrix, attempt);
  }

  /** A confirm that comes too late, on another basis, or for values the display does not show gives up the preview if it
      can be rolled back; when the basis or the receipt cannot be read, or the file not written, the preview stays. */
  lemma LateConfirm(s: State, e: Event)
    requires e.ConfirmCall? && Names(s, e.token)
    ensures var p, after := s.preview.value, Next(s, e);
            var wrong := e.expired || (e.basis.Some? && (e.basis.value != p.basis
                         || (!e.seen.Unreadable? && !Shown(e.seen, p.revision, p.matrix))));
            && (wrong && RolledBack(p, e.restore) ==>
                  after.state == State(s.disk.(effective := Some(Effective(p.savedRevision, p.savedMatrix))), None))
            && (wrong && !RolledBack(p, e.restore) ==> after.state.preview == s.preview)
            && (!wrong && !(e.basis.Some? && Shown(e.seen, p.revision, p.matrix) && e.writes) ==> after.state == s && after.log == [])
  {
    hide Restore, Confirms, Shown, RolledBack;
    var p := s.preview.value;
    ShownIsConfirmed(e.seen, p.revision, p.matrix);
    RestoreAnswer(s, p, e.restore, e.after);
    NothingShown(p.revision, p.matrix);
  }

  lemma NothingShown(revision: nat, matrix: Matrix)
    ensures !Shown(Unreadable, revision, matrix) && !Shown(Missing, revision, matrix)
  {
  }

  /** A confirm or a cancel for another token changes nothing. */
  lemma StaleToken(s: State, e: Event)
    requires (e.ConfirmCall? || e.CancelCall?) && !Names(s, e.token)
    ensures Next(s, e) == Step(s, Failed(Conflict), [])
  {
  }

  // Cancel, expiry and close

  /** Cancelling rolls the named preview back, and clears it exactly when that was read back. */
  lemma CancelAnswer(s: State, e: Event)
    requires e.CancelCall? && Names(s, e.token)
    ensures var p, after := s.preview.value, Next(s, e);
            if RolledBack(p, e.restore) then
              && after.state == State(s.disk.(effective := Some(Effective(p.savedRevision, p.savedMatrix))), None)
              && (after.result == Done <==> e.after.Some?)
            else after.state.preview == s.preview && after.state.disk.persisted == s.disk.persisted && after.result != Done
  {
    hide Restore, RolledBack;
    RestoreAnswer(s, s.preview.value, e.restore, e.after);
  }

  /** The watching thread rolls its preview back once it has expired or the basis is no longer the preview's or cannot be
      read; it does nothing before that, and nothing more after one rollback that failed. */
  lemma WatchAnswer(s: State, e: Event)
    requires e.Tick?
    ensures var after := Next(s, e).state;
            if Names(s, e.token) && s.preview.value.watched && (e.expired || e.basis != Some(s.preview.value.basis)) then
              var p := s.preview.value;
              if RolledBack(p, e.restore) then
                after == State(s.disk.(effective := Some(Effective(p.savedRevision, p.savedMatrix))), None)
              else
                after.preview == Some(p.(watched := false)) && after.disk.persisted == s.disk.persisted
            else after == s
  {
    hide Restore, RolledBack;
    if s.preview.Some? { RestoreAnswer(s, s.preview.value, e.restore, e.after); }
  }

  /** Closing rolls a live preview back if it can. */
  lemma CloseAnswer(s: State, e: Event)
    requires e.Close?
    ensures var after := Next(s, e).state;
            && (s.preview.None? ==> after == s)
            && (s.preview.Some? && RolledBack(s.preview.value, e.restore) ==>
                  after == State(s.disk.(effective := Some(Effective(s.preview.value.savedRevision, s.preview.value.savedMatrix))), None))
  {
    hide Restore, RolledBack;
    if s.preview.Some? { RestoreAnswer(s, s.preview.value, e.restore, e.after); }
  }

  // Undo

  /** An undo succeeds exactly when nobody previews, there is a previous matrix and a revision left, the previous matrix
      was read back one revision on, and the file was written. It then exchanges the matrix and the previous one.
      Otherwise the persisted document stays and the call fails. */
  lemma UndoAnswer(s: State, e: Event)
    requires e.UndoCall?
    ensures var after := Next(s, e);
            if s.preview.None? && s.disk.persisted.Some? && s.disk.persisted.value.previous.Some?
               && s.disk.persisted.value.revision < 0x7FFF_FFFF && e.forward.ReadsBack? && e.writes
               && Shown(e.forward.receipt, s.disk.persisted.value.revision + 1, s.disk.persisted.value.previous.value) then
              var p := s.disk.persisted.value;
              && after.state == State(Disk(Some(Persisted(p.revision + 1, p.previous.value, Some(p.matrix))),
                                           Some(Effective(p.revision + 1, p.previous.value))), None)
              && (after.result == Done <==> e.after.Some?)
            else after.state.disk.persisted == s.disk.persisted && after.state.preview == s.preview && after.result != Done
  {
    hide ApplyResult, Shown;
    if s.disk.persisted.Some? && s.disk.persisted.value.previous.Some? {
      ApplyIsDone(s.disk.persisted.value.revision + 1, s.disk.persisted.value.previous.value, e.forward);
    }
  }

  // Calibration and rotation files

  function BasisWrites(log: seq<Entry>): nat {
    if log == [] then 0 else BasisWrites(log[..|log| - 1]) + if log[|log| - 1].BasisWritten? then 1 else 0
  }

  lemma BasisSnoc(log: seq<Entry>, entry: Entry)
    ensures BasisWrites(log + [entry]) == BasisWrites(log) + if entry.BasisWritten? then 1 else 0
  {
    assert (log + [entry])[..|log|] == log;
  }

  lemma RestoreWritesNoBasis(s: State, p: Preview, attempt: Attempt, after: Option<Basis>)
    ensures BasisWrites(Restore(s, p, attempt, after).log) == 0
  {
    hide ApplyResult, BasisWrites;
    NoBasis();
    BasisSnoc([], Applied(Effective(p.savedRevision, p.savedMatrix)));
    assert [] + [Applied(Effective(p.savedRevision, p.savedMatrix))] == [Applied(Effective(p.savedRevision, p.savedMatrix))];
    BasisSnoc([Applied(Effective(p.savedRevision, p.savedMatrix))], Released(p.token));
  }

  lemma NoBasis()
    ensures BasisWrites([]) == 0
  {
  }

  /** A state change writes the calibration and the rotation file exactly as asked when it succeeds, with no preview left
      if it asked for either; and none of them when a live preview could not be rolled back or the request is invalid. */
  lemma SetStateAnswer(s: State, e: Event)
    requires e.SetStateCall?
    ensures var after := Next(s, e);
            var clears := s.preview.Some? && (e.calibration || e.rotation);
            && (after.result == Done <==>
                  && e.ready && e.valid && (e.calibration ==> e.calibrationWrites) && (e.rotation ==> e.rotationWrites)
                  && (clears ==> RolledBack(s.preview.value, e.restore) && e.after.Some?))
            && (after.result == Done ==>
                  && BasisWrites(after.log) == (if e.calibration then 1 else 0) + (if e.rotation then 1 else 0)
                  && after.state == if clears
                       then State(s.disk.(effective := Some(Effective(s.preview.value.savedRevision, s.preview.value.savedMatrix))), None)
                       else s)
            && (!e.ready || !e.valid || (clears && !RolledBack(s.preview.value, e.restore)) ==> BasisWrites(after.log) == 0)
  {
    hide Restore, RolledBack, BasisWrites;
    NoBasis();
    var clears := s.preview.Some? && (e.calibration || e.rotation);
    var log := if clears then Restore(s, s.preview.value, e.restore, e.after).log else [];
    if clears {
      RestoreAnswer(s, s.preview.value, e.restore, e.after);
      RestoreWritesNoBasis(s, s.preview.value, e.restore, e.after);
    }
    BasisSnoc(log, BasisWritten);
    BasisSnoc(log + [BasisWritten], BasisWritten);
    assert log + [] == log && log + [BasisWritten] + [] == log + [BasisWritten];
  }

  // Recovery

  /** Recovery acts exactly when both documents exist and differ in revision or, by more than 1e-9, in a coefficient. */
  lemma RecoveryAnswer(s: State, attempt: Attempt)
    ensures var differ := s.disk.persisted.Some? && s.disk.effective.Some?
                          && (s.disk.persisted.value.revision != s.disk.effective.value.revision
                              || exists i | 0 <= i < 9 ::
                                   var d := s.disk.persisted.value.matrix[i] - s.disk.effective.value.matrix[i]; d > 1000 || d < -1000);
            var after := RecoverNext(s, attempt);
            && (!differ ==> after == Step(s, Done, []))
            && (differ && !attempt.WriteFails? ==>
                  after.state == s.(disk := s.disk.(effective := Some(Effective(s.disk.persisted.value.revision,
                                                                                s.disk.persisted.value.matrix)))))
            && (differ && attempt.WriteFails? ==> after.state == s && after.result != Done)
  {
    hide ApplyResult;
  }

  // Errors

  /** A conflict with a live preview or a stale revision, basis or exhausted revisions; an unavailable display or document;
      an invalid number, duration or combination; in the order in which they are looked for. */
  lemma PreviewErrors(s: State, e: Event)
    requires e.PreviewCall?
    ensures var r, result := e.request, Next(s, e).result;
            && (s.preview.Some? ==> result == Failed(Conflict))
            && (s.preview.None? ==>
                  var ready := s.disk.persisted.Some? && s.disk.effective.Some? && e.basis.Some?
                               && Shown(e.seen, s.disk.effective.value.revision, s.disk.effective.value.matrix);
                  if !ready then result == Failed(Unavailable)
                  else if r.expected < 0 || r.expected > 0x7FFF_FFFF then result == Failed(Validation)
                  else if r.expected != s.disk.effective.value.revision then result == Failed(Conflict)
                  else if r.ttlMs < 1000 || r.ttlMs > 60000 then result == Failed(Validation)
                  else if (if r.useDefault then !r.matrix.Absent? || r.basis.Some? else !r.matrix.Accepted? || r.basis.None?)
                       then result == Failed(Validation)
                  else if e.basisAgain.None? then result == Failed(Unavailable)
                  else if !r.useDefault && r.basis != e.basisAgain then result == Failed(Conflict)
                  else s.disk.effective.value.revision == 0x7FFF_FFFF ==> result == Failed(Conflict))
  {
    hide Confirms, Shown, ApplyResult;
    if s.disk.effective.Some? { ShownIsConfirmed(e.seen, s.disk.effective.value.revision, s.disk.effective.value.matrix); }
  }

  /** How one apply fails, and with it a preview whose rollback succeeds, an undo, a cancel and a rollback. */
  lemma ApplyErrors(revision: nat, matrix: Matrix, attempt: Attempt)
    ensures attempt.WriteFails? ==> ApplyResult(revision, matrix, attempt) == Failed(Persistence)
    ensures attempt.ReloadFails? ==> ApplyResult(revision, matrix, attempt) == Failed(Unavailable)
    ensures attempt.ReadsBack? && !Shown(attempt.receipt, revision, matrix) ==>
              ApplyResult(revision, matrix, attempt) == Failed(Provider)
  {
    hide Shown;
    ApplyIsDone(revision, matrix, attempt);
  }

  /** A confirm that is too late or on another basis is a conflict, also after the rollback; one that cannot read the basis
      finds the display unavailable; one the display contradicts, or whose receipt is unreadable, blames the provider; and
      one that cannot be written is not persisted. */
  lemma ConfirmErrors(s: State, e: Event)
    requires e.ConfirmCall? && Names(s, e.token)
    ensures var p, result := s.preview.value, Next(s, e).result;
            var back := RolledBack(p, e.restore) && e.after.Some?;
            if e.expired then back ==> result == Failed(Conflict)
            else if e.basis.None? then result == Failed(Unavailable)
            else if e.basis.value != p.basis then back ==> result == Failed(Conflict)
            else if e.seen.Unreadable? then result == Failed(Provider)
            else if !Shown(e.seen, p.revision, p.matrix) then back ==> result == Failed(Provider)
            else !e.writes ==> result == Failed(Persistence)
  {
    hide Restore, Confirms, Shown, RolledBack;
    var p := s.preview.value;
    ShownIsConfirmed(e.seen, p.revision, p.matrix);
    RestoreAnswer(s, p, e.restore, e.after);
  }

  // The previous matrix

  /** Every commit of this log, made on these documents, keeps the matrix that was persisted just before it. */
  ghost predicate KeepsPrevious(disk: Disk, log: seq<Entry>) {
    forall k | 0 <= k < |log| && log[k].Committed? :: KeepsPreviousAt(Replay(disk, log[..k]), log[k])
  }

  predicate KeepsPreviousAt(before: Disk, entry: Entry)
    requires entry.Committed?
  {
    before.persisted.Some? && entry.persisted.previous == Some(before.persisted.value.matrix)
  }

  lemma ConfirmKeepsPrevious(s: State, e: Event)
    requires Consistent(true, s) && e.ConfirmCall?
    ensures KeepsPrevious(s.disk, Next(s, e).log)
  {
    hide Replay, Confirms, Restore;
    if s.preview.Some? { RestoreNeverCommits(s, s.preview.value, e.restore, e.after); }
    ReplayShort(s.disk, Next(s, e).log[..0]);
  }

  lemma UndoKeepsPrevious(s: State, e: Event)
    requires Consistent(true, s) && e.UndoCall?
    ensures KeepsPrevious(s.disk, Next(s, e).log)
  {
    hide Replay, ApplyResult;
    var log := Next(s, e).log;
    forall k | 0 <= k < |log| && log[k].Committed?
      ensures KeepsPreviousAt(Replay(s.disk, log[..k]), log[k])
    {
      ReplayShort(s.disk, log[..k]);
    }
  }

  lemma {:induction false} EventKeepsPrevious(s: State, e: Event)
    requires Consistent(true, s)
    ensures KeepsPrevious(s.disk, Next(s, e).log)
    decreases e
  {
    hide Replay, KeepsPreviousAt, Consistent, PreviewNext, ConfirmNext, UndoNext, SetStateNext, WatchNext, Restore, NeedsRecovery;
    if e.ConfirmCall? {
      ConfirmKeepsPrevious(s, e);
    } else if e.UndoCall? {
      UndoKeepsPrevious(s, e);
    } else if e.Restart? {
      EventKeepsPrevious(s, e.during);
      var log := Next(s, e.during).log;
      var done := if e.steps <= |log| then log[..e.steps] else log;
      var all := Next(s, e).log;
      forall k | 0 <= k < |all| && all[k].Committed?
        ensures KeepsPreviousAt(Replay(s.disk, all[..k]), all[k])
      {
        assert k < |done| && all[k] == log[k];
        assert all[..k] == log[..k];
      }
    } else {
      NoOtherCommits(s, e);
    }
  }

  lemma KeepsPreviousConcat(disk: Disk, a: seq<Entry>, b: seq<Entry>)
    requires KeepsPrevious(disk, a) && KeepsPrevious(Replay(disk, a), b)
    ensures KeepsPrevious(disk, a + b)
  {
    hide Replay, KeepsPreviousAt;
    var all := a + b;
    forall k | 0 <= k < |all| && all[k].Committed?
      ensures KeepsPreviousAt(Replay(disk, all[..k]), all[k])
    {
      if k < |a| {
        assert all[..k] == a[..k];
      } else {
        assert all[..k] == a + b[..k - |a|];
        ReplayConcat(disk, a, b[..k - |a|]);
      }
    }
  }

  lemma {:induction false} RunReplays(s: State, events: seq<Event>)
    ensures Run(s, events).state.disk == Replay(s.disk, Run(s, events).log)
    decreases |events|
  {
    hide Next;
    if events == [] {
      ReplayShort(s.disk, []);
    } else {
      var n := |events| - 1;
      var before := Run(s, events[..n]);
      RunReplays(s, events[..n]);
      ReplayMatches(before.state, events[n]);
      ReplayConcat(s.disk, before.log, Next(before.state, events[n]).log);
    }
  }

  /** In every run through which the documents agree, each document that is persisted keeps as its previous matrix the
      one that was persisted just before. */
  lemma {:induction false} PreviousIsLastPersisted(s: State, events: seq<Event>)
    requires AlwaysConsistent(true, s, events)
    ensures KeepsPrevious(s.disk, Run(s, events).log)
    decreases |events|
  {
    hide Next, Replay, KeepsPrevious, Consistent, AlwaysConsistent;
    if events == [] {
      NothingCommitted(s.disk);
    } else {
      var n := |events| - 1;
      var before := Run(s, events[..n]);
      AlwaysSplit(true, s, events);
      PreviousIsLastPersisted(s, events[..n]);
      LastConsistent(true, s, events[..n]);
      RunReplays(s, events[..n]);
      EventKeepsPrevious(before.state, events[n]);
      KeepsPreviousConcat(s.disk, before.log, Next(before.state, events[n]).log);
    }
  }

  lemma NothingCommitted(disk: Disk)
    ensures KeepsPrevious(disk, [])
  {
  }

  lemma RunOne(s: State, e: Event)
    ensures Run(s, [e]) == Next(s, e)
  {
    hide Next;
    assert [e][..0] == [];
    assert [] + Next(s, e).log == Next(s, e).log;
  }

  lemma RunNext(s: State, events: seq<Event>, e: Event)
    ensures Run(s, events + [e]).state == Next(Run(s, events).state, e).state
    ensures Run(s, events + [e]).result == Next(Run(s, events).state, e).result
  {
    hide Next;
    assert (events + [e])[..|events|] == events;
  }

  /** Confirming and then undoing, both with success, brings back in both documents the matrix that was persisted before;
      undoing once more brings back the confirmed one. The revision goes up each time. */
  lemma UndoTakesBack(s: State, confirm: Event, undo: Event, again: Event)
    requires Consistent(true, s) && s.preview.Some? && confirm.ConfirmCall? && undo.UndoCall? && again.UndoCall?
    requires Run(s, [confirm]).result == Done && Run(s, [confirm, undo]).result == Done
    ensures var was, end := s.disk.persisted.value, Run(s, [confirm, undo]).state.disk;
            && end.persisted.Some? && end.persisted.value.matrix == was.matrix && end.persisted.value.revision == was.revision + 2
            && end.effective == Some(Effective(was.revision + 2, was.matrix))
    ensures Run(s, [confirm, undo, again]).result == Done ==>
              var was, chosen, end := s.disk.persisted.value, s.preview.value.matrix, Run(s, [confirm, undo, again]).state.disk;
              && end.persisted.Some? && end.persisted.value.matrix == chosen && end.persisted.value.revision == was.revision + 3
              && end.effective == Some(Effective(was.revision + 3, chosen))
  {
    hide Next, Run, Shown;
    RunOne(s, confirm);
    RunNext(s, [confirm], undo);
    RunNext(s, [confirm, undo], again);
    assert [confirm] + [undo] == [confirm, undo] && [confirm, undo] + [again] == [confirm, undo, again];
    ConfirmAnswer(s, confirm);
    UndoAnswer(Run(s, [confirm]).state, undo);
    UndoAnswer(Run(s, [confirm, undo]).state, again);
  }
}
