/** The transaction methods of the CH347 control backend, which change the preview and replace files in place. */
module TouchBackend {
  import opened TouchCalibration

  class Ch347ControlBackend {
    var persisted: Option<Persisted>
    var effective: Option<Effective>
    var preview: Option<Preview>
    ghost var log: seq<Entry>

    constructor (persisted: Option<Persisted>, effective: Option<Effective>)
      ensures Snapshot() == State(Disk(persisted, effective), None) && log == []
    {
      this.persisted := persisted;
      this.effective := effective;
      preview := None;
      log := [];
    }

    function Snapshot(): State
      reads this
    {
      State(Disk(persisted, effective), preview)
    }

    /** The object did what `step` says, and logged it. */
    twostate predicate Did(step: Step, result: Result)
      reads this
    {
      Snapshot() == step.state && result == step.result && log == old(log) + step.log
    }

    /** `_apply_affine`: replace the effective file, reload, and read the receipt back. */
    method ApplyAffine(revision: nat, matrix: Matrix, attempt: Attempt) returns (result: Result)
      modifies this
      ensures Did(Apply(old(Snapshot()), revision, matrix, attempt), result)
    {
      if attempt.WriteFails? {
        return Failed(Persistence);
      }
      var document := Effective(revision, matrix);
      effective := Some(document);
      log := log + [Applied(document)];
      if attempt.ReloadFails? {
        return Failed(Unavailable);
      }
      if !Confirms(attempt.receipt, revision, matrix) {
        return Failed(Provider);
      }
      return Done;
    }

    /** `_restore_preview_locked` on the live preview. */
    method RestorePreview(after: Option<Basis>, attempt: Attempt) returns (result: Result)
      requires preview.Some?
      modifies this
      ensures Did(Restore(old(Snapshot()), old(preview).value, attempt, after), result)
    {
      var p := preview.value;
      result := ApplyAffine(p.savedRevision, p.savedMatrix, attempt);
      if result != Done {
        return;
      }
      preview := None;
      log := log + [Released(p.token)];
      result := Get(after);
    }

    method TouchCalibrationPreview(e: Event) returns (result: Result)
      requires e.PreviewCall?
      modifies this
      ensures Did(Next(old(Snapshot()), e), result)
    {
      if preview.Some? {
        return Failed(Conflict);
      }
      if e.basis.None? || persisted.None? || effective.None? {
        return Failed(Unavailable);
      }
      var saved, r := effective.value, e.request;
      if !Confirms(e.seen, saved.revision, saved.matrix) {
        return Failed(Unavailable);
      }
      if r.expected < 0 || r.expected > MAX_REVISION {
        return Failed(Validation);
      }
      if r.expected != saved.revision {
        return Failed(Conflict);
      }
      if r.ttlMs < 1000 || r.ttlMs > 60000 {
        return Failed(Validation);
      }
      var matrix := IDENTITY;
      if r.useDefault {
        if !r.matrix.Absent? || r.basis.Some? {
          return Failed(Validation);
        }
        if e.basisAgain.None? {
          return Failed(Unavailable);
        }
      } else {
        if r.matrix.Absent? || r.basis.None? || r.matrix.Rejected? {
          return Failed(Validation);
        }
        matrix := r.matrix.matrix;
        if e.basisAgain.None? {
          return Failed(Unavailable);
        }
        if r.basis.value != e.basisAgain.value {
          return Failed(Conflict);
        }
      }
      if saved.revision >= MAX_REVISION {
        return Failed(Conflict);
      }
      result := ApplyAffine(saved.revision + 1, matrix, e.forward);
      if result != Done {
        var rollback := ApplyAffine(saved.revision, saved.matrix, e.rollback);
        return if rollback == Done then result else Failed(Provider);
      }
      preview := Some(Preview(e.token, saved.revision + 1, matrix, saved.revision, saved.matrix, e.basisAgain.value, true));
      log := log + [Issued(e.token)];
    }

    method TouchCalibrationConfirm(e: Event) returns (result: Result)
      requires e.ConfirmCall?
      modifies this
      ensures Did(Next(old(Snapshot()), e), result)
    {
      hide Restore, Confirms;
      if preview.None? || preview.value.token != e.token {
        return Failed(Conflict);
      }
      var p := preview.value;
      if e.expired {
        result := RestorePreview(e.after, e.restore);
        return if result == Done then Failed(Conflict) else result;
      }
      if e.basis.None? {
        return Failed(Unavailable);
      }
      if e.basis.value != p.basis {
        result := RestorePreview(e.after, e.restore);
        return if result == Done then Failed(Conflict) else result;
      }
      if e.seen.Unreadable? {
        return Failed(Provider);
      }
      if !Confirms(e.seen, p.revision, p.matrix) {
        result := RestorePreview(e.after, e.restore);
        return if result == Done then Failed(Provider) else result;
      }
      if !e.writes {
        return Failed(Persistence);
      }
      var document := Persisted(p.revision, p.matrix, Some(p.savedMatrix));
      persisted := Some(document);
      log := log + [Committed(Some(p.token), document)];
      preview := None;
      result := Get(e.after);
    }

    method TouchCalibrationCancel(e: Event) returns (result: Result)
      requires e.CancelCall?
      modifies this
      ensures Did(Next(old(Snapshot()), e), result)
    {
      if preview.None? || preview.value.token != e.token {
        return Failed(Conflict);
      }
      result := RestorePreview(e.after, e.restore);
    }

    method TouchCalibrationUndo(e: Event) returns (result: Result)
      requires e.UndoCall?
      modifies this
      ensures Did(Next(old(Snapshot()), e), result)
    {
      hide ApplyResult;
      if preview.Some? || persisted.None? || persisted.value.previous.None? || persisted.value.revision >= MAX_REVISION {
        return Failed(Conflict);
      }
      var state := persisted.value;
      var revision, previous := state.revision + 1, state.previous.value;
      result := ApplyAffine(revision, previous, e.forward);
      if result != Done {
        return;
      }
      if !e.writes {
        result := ApplyAffine(state.revision, state.matrix, e.rollback);
        return if result == Done then Failed(Persistence) else result;
      }
      var document := Persisted(revision, previous, Some(state.matrix));
      persisted := Some(document);
      log := log + [Committed(None, document)];
      result := Get(e.after);
    }

    /** One turn of `_preview_watch`; the thread returns after a rollback, whatever came of it. */
    method PreviewWatch(e: Event) returns (result: Result)
      requires e.Tick?
      modifies this
      ensures Did(Next(old(Snapshot()), e), result)
    {
      if preview.Some? && preview.value.token == e.token && preview.value.watched {
        if e.expired || e.basis != Some(preview.value.basis) {
          var watched := preview.value;
          result := RestorePreview(e.after, e.restore);
          if preview.Some? {
            preview := Some(watched.(watched := false));
          }
        }
      }
      return Done;
    }

    method CloseBackend(e: Event) returns (result: Result)
      requires e.Close?
      modifies this
      ensures Did(Next(old(Snapshot()), e), result)
    {
      if preview.Some? {
        result := RestorePreview(e.after, e.restore);
      }
      return Done;
    }

    /** The calibration and rotation parts of `set_state`: a live preview is rolled back first. */
    method SetState(e: Event) returns (result: Result)
      requires e.SetStateCall?
      modifies this
      ensures Did(Next(old(Snapshot()), e), result)
    {
      hide Restore;
      if !e.ready {
        return Failed(Unavailable);
      }
      if e.calibration || e.rotation {
        if preview.Some? {
          result := RestorePreview(e.after, e.restore);
          if result != Done {
            return;
          }
        }
      }
      if !e.valid {
        return Failed(Validation);
      }
      if e.calibration {
        if !e.calibrationWrites {
          return Failed(Persistence);
        }
        log := log + [BasisWritten];
      }
      if e.rotation {
        if !e.rotationWrites {
          return Failed(Persistence);
        }
        log := log + [BasisWritten];
      }
      return Done;
    }

    /** `recover_stale_preview`, which a new process runs before it serves. */
    method RecoverStalePreview(attempt: Attempt) returns (result: Result)
      modifies this
      ensures Did(RecoverNext(old(Snapshot()), attempt), result)
    {
      hide ApplyResult, Near;
      if persisted.None? || effective.None? {
        return Done;
      }
      if persisted.value.revision != effective.value.revision || !Near(persisted.value.matrix, effective.value.matrix) {
        result := ApplyAffine(persisted.value.revision, persisted.value.matrix, attempt);
        return;
      }
      return Done;
    }
  }
}
