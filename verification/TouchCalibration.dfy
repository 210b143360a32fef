/** The touch-calibration transaction: a persisted document, a runtime effective document and a
    receipt that another process writes. Everything outside this process arrives as an event input. */
module TouchCalibration {

  datatype Option<+T> = None | Some(value: T)

  /** Coefficients in units of 1e-12, row by row. */
  type Matrix = m: seq<int> | |m| == 9 witness [0, 0, 0, 0, 0, 0, 0, 0, 0]

  const ONE := 1_000_000_000_000
  const TOLERANCE := 1000
  const IDENTITY: Matrix := [ONE, 0, 0, 0, ONE, 0, 0, 0, ONE]
  const MAX_REVISION := 0x7FFF_FFFF

  type Token = string

  datatype Basis = Basis(rotation: string, width: int, height: int)

  datatype Effective = Effective(revision: nat, matrix: Matrix)

  datatype Persisted = Persisted(revision: nat, matrix: Matrix, previous: Option<Matrix>)

  datatype Disk = Disk(persisted: Option<Persisted>, effective: Option<Effective>)

  /** `watched`: the thread that rolls the preview back on expiry has not ended yet. */
  datatype Preview = Preview(token: Token, revision: nat, matrix: Matrix,
                             savedRevision: nat, savedMatrix: Matrix, basis: Basis, watched: bool)

  datatype State = State(disk: Disk, preview: Option<Preview>)

  datatype Error = Validation | Conflict | Unavailable | Provider | Persistence

  datatype Result = Done | Failed(error: Error)

  /** What reading the receipt of the display process gives. */
  datatype Receipt = Unreadable | Missing | Receipt(revision: nat, matrix: Matrix)

  /** How far one apply gets: no file replaced, file replaced but not reloaded, or read back. */
  datatype Attempt = WriteFails | ReloadFails | ReadsBack(receipt: Receipt)

  datatype MatrixArgument = Absent | Rejected | Accepted(matrix: Matrix)

  datatype Request = Request(expected: int, ttlMs: int, useDefault: bool, matrix: MatrixArgument, basis: Option<Basis>)

  /** Durable actions, and the life of preview tokens. */
  datatype Entry =
    | Issued(token: Token)
    | Released(token: Token)
    | Applied(effective: Effective)
    | Committed(owner: Option<Token>, persisted: Persisted)
    | BasisWritten

  datatype Step = Step(state: State, result: Result, log: seq<Entry>)

  datatype Event =
    | PreviewCall(request: Request, token: Token, seen: Receipt, basis: Option<Basis>, basisAgain: Option<Basis>,
                  forward: Attempt, rollback: Attempt)
    | ConfirmCall(token: Token, expired: bool, basis: Option<Basis>, seen: Receipt, restore: Attempt,
                  writes: bool, after: Option<Basis>)
    | CancelCall(token: Token, restore: Attempt, after: Option<Basis>)
    | UndoCall(forward: Attempt, writes: bool, rollback: Attempt, after: Option<Basis>)
    | Tick(token: Token, expired: bool, basis: Option<Basis>, restore: Attempt, after: Option<Basis>)
    | Close(restore: Attempt, after: Option<Basis>)
    | SetStateCall(calibration: bool, rotation: bool, ready: bool, restore: Attempt, after: Option<Basis>,
                   valid: bool, calibrationWrites: bool, rotationWrites: bool)
    /** The process dies after `steps` durable actions of `during` and a new one recovers. */
    | Restart(during: Event, steps: nat, recover: Attempt)

  // The code as a function of the state and the event

  predicate Near(a: Matrix, b: Matrix) {
    forall i | 0 <= i < 9 :: -TOLERANCE <= a[i] - b[i] <= TOLERANCE
  }

  predicate Confirms(receipt: Receipt, revision: nat, matrix: Matrix) {
    receipt.Receipt? && receipt.revision == revision && Near(receipt.matrix, matrix)
  }

  function Get(basis: Option<Basis>): Result {
    if basis.None? then Failed(Unavailable) else Done
  }

  function ApplyResult(revision: nat, matrix: Matrix, attempt: Attempt): Result {
    match attempt
    case WriteFails => Failed(Persistence)
    case ReloadFails => Failed(Unavailable)
    case ReadsBack(receipt) => if Confirms(receipt, revision, matrix) then Done else Failed(Provider)
  }

  function Apply(s: State, revision: nat, matrix: Matrix, attempt: Attempt): Step {
    var document := Effective(revision, matrix);
    if attempt.WriteFails? then Step(s, Failed(Persistence), [])
    else Step(s.(disk := s.disk.(effective := Some(document))), ApplyResult(revision, matrix, attempt), [Applied(document)])
  }

  /** Roll the preview back; it stays live when the rollback fails. */
  function Restore(s: State, p: Preview, attempt: Attempt, after: Option<Basis>): Step {
    var step := Apply(s, p.savedRevision, p.savedMatrix, attempt);
    if step.result != Done then step
    else Step(step.state.(preview := None), Get(after), step.log + [Released(p.token)])
  }

  function WithError(step: Step, error: Error): Step {
    if step.result == Done then step.(result := Failed(error)) else step
  }

  /** The checks of a preview request, in the order of the code; `Some` holds the first error. */
  function Refusal(s: State, e: Event): Option<Error>
    requires e.PreviewCall?
  {
    var r := e.request;
    if s.preview.Some? then Some(Conflict)
    else if e.basis.None? || s.disk.persisted.None? || s.disk.effective.None? then Some(Unavailable)
    else
      var current := s.disk.effective.value;
      if !Confirms(e.seen, current.revision, current.matrix) then Some(Unavailable)
      else if !(0 <= r.expected <= MAX_REVISION) then Some(Validation)
      else if r.expected != current.revision then Some(Conflict)
      else if !(1000 <= r.ttlMs <= 60000) then Some(Validation)
      else if r.useDefault && !(r.matrix.Absent? && r.basis.None?) then Some(Validation)
      else if !r.useDefault && (!r.matrix.Accepted? || r.basis.None?) then Some(Validation)
      else if e.basisAgain.None? then Some(Unavailable)
      else if !r.useDefault && r.basis != e.basisAgain then Some(Conflict)
      else if current.revision >= MAX_REVISION then Some(Conflict)
      else None
  }

  function PreviewNext(s: State, e: Event): Step
    requires e.PreviewCall?
  {
    if Refusal(s, e).Some? then Step(s, Failed(Refusal(s, e).value), [])
    else
      var saved := s.disk.effective.value;
      var matrix := if e.request.useDefault then IDENTITY else e.request.matrix.matrix;
      var forward := Apply(s, saved.revision + 1, matrix, e.forward);
      if forward.result != Done then
        var back := Apply(forward.state, saved.revision, saved.matrix, e.rollback);
        Step(back.state, if back.result == Done then forward.result else Failed(Provider), forward.log + back.log)
      else
        var p := Preview(e.token, saved.revision + 1, matrix, saved.revision, saved.matrix, e.basisAgain.value, true);
        Step(forward.state.(preview := Some(p)), Done, forward.log + [Issued(e.token)])
  }

  function ConfirmNext(s: State, e: Event): Step
    requires e.ConfirmCall?
  {
    if s.preview.None? || s.preview.value.token != e.token then Step(s, Failed(Conflict), [])
    else
      var p := s.preview.value;
      if e.expired then WithError(Restore(s, p, e.restore, e.after), Conflict)
      else if e.basis.None? then Step(s, Failed(Unavailable), [])
      else if e.basis.value != p.basis then WithError(Restore(s, p, e.restore, e.after), Conflict)
      else if e.seen.Unreadable? then Step(s, Failed(Provider), [])
      else if !Confirms(e.seen, p.revision, p.matrix) then WithError(Restore(s, p, e.restore, e.after), Provider)
      else if !e.writes then Step(s, Failed(Persistence), [])
      else
        var document := Persisted(p.revision, p.matrix, Some(p.savedMatrix));
        Step(State(s.disk.(persisted := Some(document)), None), Get(e.after), [Committed(Some(p.token), document)])
  }

  function UndoNext(s: State, e: Event): Step
    requires e.UndoCall?
  {
    if s.preview.Some? || s.disk.persisted.None? || s.disk.persisted.value.previous.None? then Step(s, Failed(Conflict), [])
    else
      var current := s.disk.persisted.value;
      if current.revision >= MAX_REVISION then Step(s, Failed(Conflict), [])
      else
        var forward := Apply(s, current.revision + 1, current.previous.value, e.forward);
        if forward.result != Done then forward
        else if !e.writes then
          var back := Apply(forward.state, current.revision, current.matrix, e.rollback);
          Step(back.state, if back.result == Done then Failed(Persistence) else back.result, forward.log + back.log)
        else
          var document := Persisted(current.revision + 1, current.previous.value, Some(current.matrix));
          Step(forward.state.(disk := forward.state.disk.(persisted := Some(document))), Get(e.after),
               forward.log + [Committed(None, document)])
  }

  /** The part of `set_state` that concerns calibration and rotation. */
  function SetStateNext(s: State, e: Event): Step
    requires e.SetStateCall?
  {
    if !e.ready then Step(s, Failed(Unavailable), [])
    else
      var cleared := if s.preview.Some? && (e.calibration || e.rotation)
                     then Restore(s, s.preview.value, e.restore, e.after) else Step(s, Done, []);
      if cleared.result != Done then cleared
      else if !e.valid then cleared.(result := Failed(Validation))
      else if e.calibration && !e.calibrationWrites then cleared.(result := Failed(Persistence))
      else
        var once := cleared.log + if e.calibration then [BasisWritten] else [];
        if e.rotation && !e.rotationWrites then Step(cleared.state, Failed(Persistence), once)
        else Step(cleared.state, Done, once + if e.rotation then [BasisWritten] else [])
  }

  /** Whether a turn of the watching thread rolls the live preview back. */
  predicate WatcherActs(s: State, e: Event)
    requires e.Tick?
  {
    && s.preview.Some? && s.preview.value.token == e.token && s.preview.value.watched
    && (e.expired || e.basis != Some(s.preview.value.basis))
  }

  /** The thread ends after its rollback, whatever came of it. */
  function WatchNext(s: State, e: Event): Step
    requires e.Tick?
  {
    if !WatcherActs(s, e) then Step(s, Done, [])
    else
      var step := Restore(s, s.preview.value, e.restore, e.after).(result := Done);
      if step.state.preview.None? then step
      else step.(state := step.state.(preview := Some(s.preview.value.(watched := false))))
  }

  predicate NeedsRecovery(disk: Disk) {
    disk.persisted.Some? && disk.effective.Some? &&
    (disk.persisted.value.revision != disk.effective.value.revision ||
     !Near(disk.persisted.value.matrix, disk.effective.value.matrix))
  }

  function RecoverNext(s: State, attempt: Attempt): Step {
    if NeedsRecovery(s.disk) then Apply(s, s.disk.persisted.value.revision, s.disk.persisted.value.matrix, attempt)
    else Step(s, Done, [])
  }

  /** The documents after some durable actions. */
  function Replay(disk: Disk, log: seq<Entry>): Disk
    decreases |log|
  {
    if log == [] then disk
    else
      var before := Replay(disk, log[..|log| - 1]);
      match log[|log| - 1]
      case Applied(document) => before.(effective := Some(document))
      case Committed(_, document) => before.(persisted := Some(document))
      case _ => before
  }

  function Next(s: State, e: Event): Step
    decreases e
  {
    match e
    case PreviewCall(_, _, _, _, _, _, _) => PreviewNext(s, e)
    case ConfirmCall(_, _, _, _, _, _, _) => ConfirmNext(s, e)
    case CancelCall(token, restore, after) =>
      if s.preview.None? || s.preview.value.token != token then Step(s, Failed(Conflict), [])
      else Restore(s, s.preview.value, restore, after)
    case UndoCall(_, _, _, _) => UndoNext(s, e)
    case Tick(_, _, _, _, _) => WatchNext(s, e)
    case Close(restore, after) =>
      if s.preview.Some? then Restore(s, s.preview.value, restore, after).(result := Done) else Step(s, Done, [])
    case SetStateCall(_, _, _, _, _, _, _, _) => SetStateNext(s, e)
    case Restart(during, steps, recover) =>
      var log := Next(s, during).log;
      var done := if steps <= |log| then log[..steps] else log;
      var recovered := RecoverNext(State(Replay(s.disk, done), None), recover);
      recovered.(log := done + recovered.log)
  }

  function Run(s: State, events: seq<Event>): Step
    decreases |events|
  {
    if events == [] then Step(s, Done, [])
    else
      var before := Run(s, events[..|events| - 1]);
      var step := Next(before.state, events[|events| - 1]);
      Step(step.state, step.result, before.log + step.log)
  }
}
