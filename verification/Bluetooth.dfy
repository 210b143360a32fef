/** Bluetooth power requests: `request_bluetooth_power_with` against every behaviour of its five callbacks. */
module Bluetooth {

  /** What a Management read says; `Missing` is the empty index list, `Broken` any other failure. */
  datatype Reading = Shows(powered: bool) | Missing | Broken

  datatype Radio = Unreadable | Radio(unblocked: bool, hardBlocked: bool, writable: bool)

  datatype Call =
    | ReadInfo(reading: Reading)
    | WriteManagement(powered: bool, done: bool)
    | ReadRfkill(radio: Radio)
    | WriteRfkill(unblocked: bool, done: bool)
    | Wait(milliseconds: nat)

  type History = seq<Call>

  /** The callbacks may answer by everything that was called before. */
  datatype Ops = Ops(readInfo: History -> Reading, writeManagement: (History, bool) -> bool,
                     readRfkill: History -> Radio, writeRfkill: (History, bool) -> bool)

  datatype Action =
    | DoReadInfo
    | DoWriteManagement(powered: bool)
    | DoReadRfkill
    | DoWriteRfkill(unblocked: bool)
    | DoWait(milliseconds: nat)
    | Stop(ok: bool)

  const CONFIRMATIONS := 10
  const PROBES := 50

  predicate Usable(radio: Radio) {
    radio.Radio? && !radio.hardBlocked && radio.writable
  }

  function Reads(h: History): nat {
    if h == [] then 0 else Reads(h[..|h| - 1]) + if h[|h| - 1].ReadInfo? then 1 else 0
  }

  function Waited(h: History): nat {
    if h == [] then 0 else Waited(h[..|h| - 1]) + if h[|h| - 1].Wait? then h[|h| - 1].milliseconds else 0
  }

  function RfkillWrites(h: History): seq<bool> {
    if h == [] then [] else RfkillWrites(h[..|h| - 1]) + if h[|h| - 1].WriteRfkill? then [h[|h| - 1].unblocked] else []
  }

  /** The controller had no Management index when the request came. */
  predicate StartedMissing(h: History) {
    h != [] && h[0] == ReadInfo(Missing)
  }

  /** What a power request does next, said without its loops: by the last call, the first one, and the number of reads. */
  function Due(powered: bool, h: History): Action {
    if h == [] then DoReadInfo
    else
      match h[|h| - 1]
      case ReadInfo(Shows(on)) =>
        if on == powered then Stop(true)
        else if |h| == 1 || StartedMissing(h) then DoWriteManagement(powered)
        else Stop(false)
      case ReadInfo(Missing) =>
        if !powered then Stop(true)
        else if |h| == 1 then DoReadRfkill
        else DoWait(if StartedMissing(h) then 100 else 50)
      case ReadInfo(Broken) =>
        if powered && |h| > 1 && !StartedMissing(h) then DoWait(50) else Stop(false)
      case WriteManagement(_, done) =>
        if !done then Stop(false) else if StartedMissing(h) then DoWait(100) else DoReadInfo
      case ReadRfkill(radio) =>
        if Usable(radio) then DoWriteRfkill(!radio.unblocked) else Stop(false)
      case WriteRfkill(unblocked, done) =>
        if !done then Stop(false) else if unblocked then DoReadInfo else DoWait(100)
      case Wait(_) =>
        if |h| > 1 && h[|h| - 2].WriteRfkill? then DoWriteRfkill(true)
        else if Reads(h) <= (if StartedMissing(h) then PROBES else CONFIRMATIONS) then DoReadInfo
        else Stop(false)
  }

  predicate Performs(call: Call, action: Action) {
    match call
    case ReadInfo(_) => action.DoReadInfo?
    case WriteManagement(powered, _) => action == DoWriteManagement(powered)
    case ReadRfkill(_) => action.DoReadRfkill?
    case WriteRfkill(unblocked, _) => action == DoWriteRfkill(unblocked)
    case Wait(milliseconds) => action == DoWait(milliseconds)
  }

  predicate Answered(ops: Ops, h: History, call: Call) {
    match call
    case ReadInfo(reading) => reading == ops.readInfo(h)
    case WriteManagement(powered, done) => done == ops.writeManagement(h, powered)
    case ReadRfkill(radio) => radio == ops.readRfkill(h)
    case WriteRfkill(unblocked, done) => done == ops.writeRfkill(h, unblocked)
    case Wait(_) => true
  }

  /** Every call was the one due. */
  ghost predicate Possible(powered: bool, h: History) {
    forall k | 0 <= k < |h| :: Performs(h[k], Due(powered, h[..k]))
  }

  ghost predicate Runs(ops: Ops, powered: bool, h: History) {
    Possible(powered, h) && forall k | 0 <= k < |h| :: Answered(ops, h[..k], h[k])
  }

  lemma RunsSnoc(ops: Ops, powered: bool, h: History, call: Call)
    requires Runs(ops, powered, h) && Performs(call, Due(powered, h)) && Answered(ops, h, call)
    ensures Runs(ops, powered, h + [call]) && (h + [call])[..|h|] == h
    ensures Reads(h + [call]) == Reads(h) + if call.ReadInfo? then 1 else 0
  {
    hide Performs, Due, Answered;
    var all := h + [call];
    assert all[..|h|] == h;
    forall k | 0 <= k < |all|
      ensures Performs(all[k], Due(powered, all[..k])) && Answered(ops, all[..k], all[k])
    {
      assert all[..k] == if k == |h| then h else h[..k];
    }
  }

  // The request

  /** The part of the request for a controller that answered its first read with the other state. */
  method SwitchPresent(ops: Ops, powered: bool, before: History) returns (ok: bool, h: History)
    requires before == [ReadInfo(Shows(!powered))] && Reads(before) == 1 && Runs(ops, powered, before)
    ensures Runs(ops, powered, h) && Due(powered, h) == Stop(ok)
  {
    hide Runs;
    h := before;
    var done := ops.writeManagement(h, powered);
    RunsSnoc(ops, powered, h, WriteManagement(powered, done));
    h := h + [WriteManagement(powered, done)];
    if !done {
      return false, h;
    }
    if !powered {
      var reading := ops.readInfo(h);
      RunsSnoc(ops, powered, h, ReadInfo(reading));
      h := h + [ReadInfo(reading)];
      match reading
      case Shows(on) => return !on, h;
      case Missing => return true, h;
      case Broken => return false, h;
    }
    var attempt := 0;
    while attempt < CONFIRMATIONS
      invariant 0 <= attempt <= CONFIRMATIONS
      invariant Runs(ops, powered, h) && |h| > 1 && h[0] == ReadInfo(Shows(false)) && Reads(h) == attempt + 1
      invariant if attempt == 0 then h[|h| - 1] == WriteManagement(true, true)
                else h[|h| - 1] == Wait(50) && h[|h| - 2].ReadInfo?
    {
      var reading := ops.readInfo(h);
      RunsSnoc(ops, powered, h, ReadInfo(reading));
      h := h + [ReadInfo(reading)];
      if reading.Shows? {
        return reading.powered, h;
      }
      RunsSnoc(ops, powered, h, Wait(50));
      h := h + [Wait(50)];
      attempt := attempt + 1;
    }
    return false, h;
  }

  /** The part that switches a controller on after the radio was unblocked. */
  method ProbeUntilPowered(ops: Ops, before: History) returns (ok: bool, h: History)
    requires Runs(ops, true, before) && StartedMissing(before) && Reads(before) == 1 && |before| > 2
    requires before[|before| - 1] == WriteRfkill(true, true)
    ensures Runs(ops, true, h) && Due(true, h) == Stop(ok)
  {
    hide Runs;
    h := before;
    var attempt := 0;
    while attempt < PROBES
      invariant 0 <= attempt <= PROBES
      invariant Runs(ops, true, h) && |h| > 2 && StartedMissing(h) && Reads(h) == attempt + 1
      invariant if attempt == 0 then h[|h| - 1] == WriteRfkill(true, true)
                else h[|h| - 1] == Wait(100) && (h[|h| - 2].ReadInfo? || h[|h| - 2].WriteManagement?)
    {
      var reading := ops.readInfo(h);
      RunsSnoc(ops, true, h, ReadInfo(reading));
      h := h + [ReadInfo(reading)];
      if reading == Shows(true) {
        return true, h;
      }
      if reading == Broken {
        return false, h;
      }
      if reading == Shows(false) {
        var done := ops.writeManagement(h, true);
        RunsSnoc(ops, true, h, WriteManagement(true, done));
        h := h + [WriteManagement(true, done)];
        if !done {
          return false, h;
        }
      }
      RunsSnoc(ops, true, h, Wait(100));
      h := h + [Wait(100)];
      attempt := attempt + 1;
    }
    return false, h;
  }

  /** `request_bluetooth_power_with`: the calls made are the ones due, and the result is the one due at the end. */
  method RequestBluetoothPower(ops: Ops, powered: bool) returns (ok: bool, h: History)
    ensures Runs(ops, powered, h) && Due(powered, h) == Stop(ok)
  {
    hide Runs;
    h := [];
    RunsNothing(ops, powered);
    var reading := ops.readInfo(h);
    RunsSnoc(ops, powered, h, ReadInfo(reading));
    h := h + [ReadInfo(reading)];
    if reading.Shows? {
      if reading.powered == powered {
        return true, h;
      }
      ok, h := SwitchPresent(ops, powered, h);
      return;
    }
    if reading != Missing {
      return false, h;
    }
    if !powered {
      return true, h;
    }
    var radio := ops.readRfkill(h);
    RunsSnoc(ops, powered, h, ReadRfkill(radio));
    h := h + [ReadRfkill(radio)];
    if radio.Unreadable? || radio.hardBlocked || !radio.writable {
      return false, h;
    }
    if radio.unblocked {
      var blocked := ops.writeRfkill(h, false);
      RunsSnoc(ops, powered, h, WriteRfkill(false, blocked));
      h := h + [WriteRfkill(false, blocked)];
      if !blocked {
        return false, h;
      }
      RunsSnoc(ops, powered, h, Wait(100));
      h := h + [Wait(100)];
    }
    var unblocked := ops.writeRfkill(h, true);
    RunsSnoc(ops, powered, h, WriteRfkill(true, unblocked));
    h := h + [WriteRfkill(true, unblocked)];
    if !unblocked {
      return false, h;
    }
    ok, h := ProbeUntilPowered(ops, h);
  }

  lemma RunsNothing(ops: Ops, powered: bool)
    ensures Runs(ops, powered, [])
  {
  }

  lemma CallsAreDue(powered: bool, h: History, k: nat)
    requires Possible(powered, h) && k < |h|
    ensures !Due(powered, h[..k]).Stop?
  {
    hide Due;
    assert Performs(h[k], Due(powered, h[..k]));
  }

  /** A request makes one sequence of calls: whatever runs like it and stops, is it. */
  lemma {:induction false} OneRun(ops: Ops, powered: bool, h: History, other: History, k: nat)
    requires Runs(ops, powered, h) && Runs(ops, powered, other) && Due(powered, h).Stop? && Due(powered, other).Stop?
    requires k <= |h|
    ensures k <= |other| && h[..k] == other[..k]
    ensures k == |h| ==> h == other
  {
    hide Due;
    if k > 0 {
      OneRun(ops, powered, h, other, k - 1);
      assert k - 1 < |other| by { assert other[..|other|] == other; }
      assert Performs(h[k - 1], Due(powered, h[..k - 1])) && Answered(ops, h[..k - 1], h[k - 1]);
      assert Performs(other[k - 1], Due(powered, other[..k - 1])) && Answered(ops, other[..k - 1], other[k - 1]);
      assert h[..k] == h[..k - 1] + [h[k - 1]] && other[..k] == other[..k - 1] + [other[k - 1]];
    }
    if k == |h| {
      assert h[..k] == h && other[..|other|] == other;
      if k < |other| { CallsAreDue(powered, other, k); }
    }
  }

  // What every request keeps

  /** The rfkill writes that a radio in this state needs. */
  function Pulse(radio: Radio): seq<bool>
    requires radio.Radio?
  {
    if radio.unblocked then [false, true] else [true]
  }

  function PulseWait(radio: Radio): nat
    requires radio.Radio?
  {
    if radio.unblocked then 100 else 0
  }

  /** Where a request for a controller that was there can be. */
  predicate Present(powered: bool, h: History) {
    && |h| > 1 && h[0] == ReadInfo(Shows(!powered)) && RfkillWrites(h) == []
    && match h[|h| - 1]
       case WriteManagement(on, _) => on == powered && Reads(h) == 1 && Waited(h) == 0
       case ReadInfo(_) => 2 <= Reads(h) <= (if powered then CONFIRMATIONS + 1 else 2) && Waited(h) == 50 * (Reads(h) - 2)
       case Wait(milliseconds) =>
         && powered && milliseconds == 50 && h[|h| - 2].ReadInfo?
         && 2 <= Reads(h) <= CONFIRMATIONS + 1 && Waited(h) == 50 * (Reads(h) - 1)
       case _ => false
  }

  /** Where it can be before the radio has been written. */
  predicate Asking(powered: bool, h: History) {
    powered && |h| == 2 && StartedMissing(h) && h[1].ReadRfkill? && Reads(h) == 1 && Waited(h) == 0 && RfkillWrites(h) == []
  }

  /** Where it can be after the radio has been written. */
  predicate Absent(powered: bool, h: History) {
    && powered && |h| > 2 && StartedMissing(h) && h[1].ReadRfkill? && Usable(h[1].radio)
    && match h[|h| - 1]
       case WriteRfkill(false, _) =>
         |h| == 3 && h[1].radio.unblocked && RfkillWrites(h) == [false] && Waited(h) == 0 && Reads(h) == 1
       case WriteRfkill(true, _) =>
         RfkillWrites(h) == Pulse(h[1].radio) && Waited(h) == PulseWait(h[1].radio) && Reads(h) == 1
       case Wait(milliseconds) =>
         && milliseconds == 100
         && if h[|h| - 2].WriteRfkill? then
           |h| == 4 && h[2] == WriteRfkill(false, true) && h[1].radio.unblocked && RfkillWrites(h) == [false] && Waited(h) == 100 && Reads(h) == 1
         else
           RfkillWrites(h) == Pulse(h[1].radio) && 2 <= Reads(h) <= PROBES + 1
           && Waited(h) == PulseWait(h[1].radio) + 100 * (Reads(h) - 1)
       case ReadRfkill(_) => false
       case WriteManagement(on, _) =>
         on && RfkillWrites(h) == Pulse(h[1].radio) && 2 <= Reads(h) <= PROBES + 1
         && Waited(h) == PulseWait(h[1].radio) + 100 * (Reads(h) - 2)
       case ReadInfo(_) =>
         RfkillWrites(h) == Pulse(h[1].radio) && 2 <= Reads(h) <= PROBES + 1
         && Waited(h) == PulseWait(h[1].radio) + 100 * (Reads(h) - 2)
  }

  predicate Sound(powered: bool, h: History) {
    || h == []
    || (|h| == 1 && h[0].ReadInfo? && Reads(h) == 1 && Waited(h) == 0 && RfkillWrites(h) == [])
    || Present(powered, h) || Asking(powered, h) || Absent(powered, h)
  }

  lemma Counts(h: History, call: Call)
    ensures Reads(h + [call]) == Reads(h) + if call.ReadInfo? then 1 else 0
    ensures Waited(h + [call]) == Waited(h) + if call.Wait? then call.milliseconds else 0
    ensures RfkillWrites(h + [call]) == RfkillWrites(h) + if call.WriteRfkill? then [call.unblocked] else []
  {
    assert (h + [call])[..|h|] == h;
  }

  lemma FirstSound(powered: bool, call: Call)
    requires Performs(call, Due(powered, []))
    ensures Sound(powered, [call])
  {
    Counts([], call);
    assert [] + [call] == [call];
  }

  lemma SecondSound(powered: bool, h: History, call: Call)
    requires |h| == 1 && Sound(powered, h) && Performs(call, Due(powered, h))
    ensures Sound(powered, h + [call])
  {
    hide Reads, Waited, RfkillWrites;
    Counts(h, call);
  }

  lemma PresentSound(powered: bool, h: History, call: Call)
    requires Present(powered, h) && Performs(call, Due(powered, h))
    ensures Present(powered, h + [call])
  {
    hide Reads, Waited, RfkillWrites;
    Counts(h, call);
  }

  lemma AskingSound(powered: bool, h: History, call: Call)
    requires Asking(powered, h) && Performs(call, Due(powered, h))
    ensures Absent(powered, h + [call])
  {
    hide Reads, Waited, RfkillWrites;
    Counts(h, call);
  }

  lemma AbsentSound(powered: bool, h: History, call: Call)
    requires Absent(powered, h) && Performs(call, Due(powered, h))
    ensures Absent(powered, h + [call])
  {
    hide Reads, Waited, RfkillWrites;
    Counts(h, call);
  }

  lemma {:induction false} AlwaysSound(powered: bool, h: History)
    requires Possible(powered, h)
    ensures Sound(powered, h)
    decreases |h|
  {
    hide Performs, Due, Present, Asking, Absent, Reads, Waited, RfkillWrites;
    if h != [] {
      var before, call := h[..|h| - 1], h[|h| - 1];
      PossiblePrefix(powered, h, |h| - 1);
      AlwaysSound(powered, before);
      assert h == before + [call];
      assert Performs(call, Due(powered, before));
      if before == [] { FirstSound(powered, call); }
      else if |before| == 1 { SecondSound(powered, before, call); }
      else if Present(powered, before) { PresentSound(powered, before, call); }
      else if Asking(powered, before) { AskingSound(powered, before, call); }
      else { AbsentSound(powered, before, call); }
    }
  }

  lemma PossiblePrefix(powered: bool, h: History, n: nat)
    requires Possible(powered, h) && n <= |h|
    ensures Possible(powered, h[..n])
  {
    hide Performs, Due;
    forall k | 0 <= k < n
      ensures Performs(h[..n][k], Due(powered, h[..n][..k]))
    {
      assert h[..n][..k] == h[..k];
    }
  }

  /** A request succeeds exactly when its last call is a read that shows what was asked, or that finds no index when
      the controller was to be off. */
  lemma SuccessWasRead(powered: bool, h: History, ok: bool)
    requires Possible(powered, h) && Due(powered, h) == Stop(ok)
    ensures ok <==> h != [] && (h[|h| - 1] == ReadInfo(Shows(powered)) || (!powered && h[|h| - 1] == ReadInfo(Missing)))
  {
  }

  /** At most 51 reads and 5.1 seconds of waiting; 11 reads and half a second when the controller was there. */
  lemma RequestsAreBounded(powered: bool, h: History)
    requires Possible(powered, h)
    ensures Reads(h) <= 51 && Waited(h) <= 5100
    ensures !StartedMissing(h) ==> Reads(h) <= 11 && Waited(h) <= 500
    ensures !powered ==> Reads(h) <= 2 && Waited(h) == 0
  {
    AlwaysSound(powered, h);
  }

  /** The radio is written only to switch on a controller without an index, when it can be read and written and is not
      blocked by hardware; it is unblocked once, and blocked before that only if it was not blocked. */
  lemma RadioIsPulsed(powered: bool, h: History)
    requires Possible(powered, h)
    ensures RfkillWrites(h) != [] ==> powered && |h| > 2 && StartedMissing(h) && h[1].ReadRfkill? && Usable(h[1].radio)
    ensures RfkillWrites(h) != [] ==> RfkillWrites(h) <= Pulse(h[1].radio)
  {
    hide Reads, Waited;
    AlwaysSound(powered, h);
  }

  /** The controller is written only the requested state, right after it was read in the other state. */
  lemma ControllerIsSwitched(powered: bool, h: History, k: nat)
    requires Possible(powered, h) && k < |h| && h[k].WriteManagement?
    ensures h[k].powered == powered && k > 0 && h[k - 1] == ReadInfo(Shows(!powered))
  {
    assert Performs(h[k], Due(powered, h[..k]));
  }

  /** The last call is one that ends a request in failure: a Management read that was broken where that is not waited
      out; a write that was refused; a radio that cannot be used; a read that still showed the controller on after it was
      switched off; the first answered read after a controller that was there was switched on, which showed it off; or
      the wait after the last of the 51 reads, or 11 for a controller that was there. */
  predicate EndsInFailure(powered: bool, h: History)
    requires h != []
  {
    match h[|h| - 1]
    case ReadInfo(Broken) => |h| == 1 || !powered || h[0] == ReadInfo(Missing)
    case ReadInfo(Missing) => false
    case ReadInfo(Shows(on)) =>
      && on != powered && |h| > 1 && h[0] == ReadInfo(Shows(!powered))
      && (!powered ==> Reads(h) == 2 && h[|h| - 2] == WriteManagement(false, true))
      && forall k | 0 < k < |h| - 1 && h[k].ReadInfo? :: !h[k].reading.Shows?
    case WriteManagement(_, done) => !done
    case WriteRfkill(_, done) => !done
    case ReadRfkill(radio) => radio.Unreadable? || radio.hardBlocked || !radio.writable
    case Wait(milliseconds) =>
      && powered
      && if h[0] == ReadInfo(Missing) then milliseconds == 100 && Reads(h) == 51
         else milliseconds == 50 && h[0] == ReadInfo(Shows(false)) && Reads(h) == 11
  }

  lemma PresentFails(powered: bool, h: History)
    requires Possible(powered, h) && Present(powered, h) && Due(powered, h) == Stop(false)
    requires Follows(powered, h[..|h| - 1], h[|h| - 1])
    requires forall k | 0 < k < |h| - 1 && h[k].ReadInfo? :: !h[k].reading.Shows?
    ensures EndsInFailure(powered, h)
  {
    hide Reads, Waited, RfkillWrites, Possible;
    assert h[..|h| - 1][0] == h[0] && h[..|h| - 1][|h| - 2] == h[|h| - 2];
  }

  lemma AbsentFails(powered: bool, h: History)
    requires Absent(powered, h) && Due(powered, h) == Stop(false)
    requires Follows(powered, h[..|h| - 1], h[|h| - 1])
    ensures EndsInFailure(powered, h)
  {
    hide Reads, Waited, RfkillWrites;
  }

  lemma AskingFails(powered: bool, h: History)
    requires Asking(powered, h) && Due(powered, h) == Stop(false)
    ensures EndsInFailure(powered, h)
  {
    hide Reads, Waited, RfkillWrites;
  }

  lemma FailureStops(powered: bool, h: History)
    requires Sound(powered, h) && h != [] && EndsInFailure(powered, h)
    ensures Due(powered, h) == Stop(false)
  {
    hide Reads, Waited, RfkillWrites;
  }

  /** A request has failed exactly when its last call is one of these. */
  lemma WhyRequestsFail(powered: bool, h: History)
    requires Possible(powered, h) && h != []
    ensures Due(powered, h) == Stop(false) <==> EndsInFailure(powered, h)
  {
    hide Reads, Waited, RfkillWrites, Present, Absent, Asking, EndsInFailure, Follows, Possible, Due;
    AlwaysSound(powered, h);
    if EndsInFailure(powered, h) { FailureStops(powered, h); }
    if Due(powered, h) == Stop(false) {
      if |h| == 1 {
        FirstFails(powered, h);
      } else {
        CallFollows(powered, h, |h| - 1);
        if Present(powered, h) {
          PresentStarts(powered, h);
          forall k | 0 < k < |h| - 1 && h[k].ReadInfo?
            ensures !h[k].reading.Shows?
          {
            NoEarlierAnswer(powered, h, k);
          }
          PresentFails(powered, h);
        } else if Absent(powered, h) {
          AbsentFails(powered, h);
        } else {
          AskingFails(powered, h);
        }
      }
    }
  }

  lemma PresentStarts(powered: bool, h: History)
    requires Present(powered, h)
    ensures h[0] == ReadInfo(Shows(!powered))
  {
  }

  lemma FirstFails(powered: bool, h: History)
    requires |h| == 1 && Sound(powered, h) && Due(powered, h) == Stop(false)
    ensures EndsInFailure(powered, h)
  {
    hide Reads, Waited, RfkillWrites;
  }

  lemma NoEarlierAnswer(powered: bool, h: History, k: nat)
    requires Possible(powered, h) && 0 < k < |h| - 1 && h[k].ReadInfo? && h[0] == ReadInfo(Shows(!powered))
    ensures !h[k].reading.Shows?
  {
    assert h[..k + 1][|h[..k + 1]| - 1] == h[k];
    CallsAreDue(powered, h, k + 1);
  }

  /** What each call follows, by the calls alone. */
  predicate Follows(powered: bool, before: History, call: Call) {
    if before == [] then call.ReadInfo?
    else
      var last := before[|before| - 1];
      match call
      case ReadInfo(_) =>
        || (before[0] == ReadInfo(Missing) && last == WriteRfkill(true, true))
        || (before[0] == ReadInfo(Missing) && last == Wait(100) && Reads(before) <= 50
            && !before[|before| - 2].WriteRfkill?)
        || (before[0] == ReadInfo(Shows(!powered)) && last == WriteManagement(powered, true))
        || (before[0] == ReadInfo(Shows(false)) && powered && last == Wait(50) && Reads(before) <= 10)
      case WriteManagement(on, _) => on == powered && last == ReadInfo(Shows(!powered))
      case ReadRfkill(_) => powered && before == [ReadInfo(Missing)]
      case WriteRfkill(false, _) => |before| == 2 && last == ReadRfkill(Radio(true, false, true))
      case WriteRfkill(true, _) =>
        || (|before| == 2 && last == ReadRfkill(Radio(false, false, true)))
        || (|before| == 4 && last == Wait(100) && before[2] == WriteRfkill(false, true))
      case Wait(milliseconds) =>
        if before[0] == ReadInfo(Missing) then
          milliseconds == 100 && last in {WriteRfkill(false, true), ReadInfo(Missing), WriteManagement(true, true)}
        else
          milliseconds == 50 && powered && before[0] == ReadInfo(Shows(false)) && last in {ReadInfo(Missing), ReadInfo(Broken)}
  }

  lemma EarlyFollows(powered: bool, before: History, call: Call)
    requires |before| <= 1 && Sound(powered, before) && Performs(call, Due(powered, before))
    ensures Follows(powered, before, call)
  {
    hide Reads, Waited, RfkillWrites;
  }

  lemma PresentFollows(powered: bool, before: History, call: Call)
    requires Present(powered, before) && Performs(call, Due(powered, before))
    ensures Follows(powered, before, call)
  {
    hide Reads, Waited, RfkillWrites;
  }

  lemma AskingFollows(powered: bool, before: History, call: Call)
    requires Asking(powered, before) && Performs(call, Due(powered, before))
    ensures Follows(powered, before, call)
  {
    hide Reads, Waited, RfkillWrites;
  }

  lemma AbsentFollows(powered: bool, before: History, call: Call)
    requires Absent(powered, before) && Performs(call, Due(powered, before))
    ensures Follows(powered, before, call)
  {
    hide Reads, Waited, RfkillWrites;
  }

  /** Every call of every request follows what it may. */
  lemma CallFollows(powered: bool, h: History, k: nat)
    requires Possible(powered, h) && k < |h|
    ensures Follows(powered, h[..k], h[k])
  {
    hide Reads, Waited, RfkillWrites, Present, Absent, Asking, Follows, Performs, Due;
    PossiblePrefix(powered, h, k);
    AlwaysSound(powered, h[..k]);
    assert Performs(h[k], Due(powered, h[..k]));
    if k <= 1 { EarlyFollows(powered, h[..k], h[k]); }
    else if Present(powered, h[..k]) { PresentFollows(powered, h[..k], h[k]); }
    else if Asking(powered, h[..k]) { AskingFollows(powered, h[..k], h[k]); }
    else { AbsentFollows(powered, h[..k], h[k]); }
  }

  ghost predicate RfkillAnswered(h: History) {
    forall k | 0 <= k < |h| && h[k].WriteRfkill? :: h[k].done
  }

  lemma AbsentPulse(powered: bool, h: History)
    requires Absent(powered, h) && Due(powered, h).Stop? && RfkillAnswered(h)
    ensures RfkillWrites(h) == if h[1].radio.unblocked then [false, true] else [true]
  {
    hide Reads, Waited, RfkillWrites;
  }

  lemma AskingStops(powered: bool, h: History)
    requires Asking(powered, h) && Due(powered, h).Stop?
    ensures !Usable(h[1].radio)
  {
    hide Reads, Waited, RfkillWrites;
  }

  lemma MissingGoesOn(powered: bool, h: History)
    requires Sound(powered, h) && StartedMissing(h) && powered && Due(powered, h).Stop?
    ensures |h| > 1 && (Asking(powered, h) || Absent(powered, h))
  {
    hide Reads, Waited, RfkillWrites, Asking, Absent;
  }

  lemma SecondIsRadio(powered: bool, h: History)
    requires Asking(powered, h) || Absent(powered, h)
    ensures |h| >= 2 && h[1].ReadRfkill?
  {
    hide Reads, Waited, RfkillWrites;
  }

  /** A controller without an index whose radio can be used gets the whole pulse, unless one of its writes is refused. */
  lemma PulseIsWhole(powered: bool, h: History)
    requires Possible(powered, h) && Due(powered, h).Stop? && powered && StartedMissing(h)
    ensures |h| >= 2 && h[1].ReadRfkill?
    ensures Usable(h[1].radio) && RfkillAnswered(h) ==>
              RfkillWrites(h) == if h[1].radio.unblocked then [false, true] else [true]
  {
    hide Reads, Waited, RfkillWrites, Sound, Asking, Absent, Due, Possible, RfkillAnswered;
    AlwaysSound(powered, h);
    MissingGoesOn(powered, h);
    SecondIsRadio(powered, h);
    if Asking(powered, h) {
      AskingStops(powered, h);
    } else if RfkillAnswered(h) {
      AbsentPulse(powered, h);
    }
  }

  /** A finished request in terms of its calls alone: each follows what it may, the answer is by the last one, and the
      radio of a controller without an index is pulsed as a whole unless it cannot be used or a write is refused. */
  lemma WhatRequestsDo(ops: Ops, powered: bool, h: History, ok: bool)
    requires Runs(ops, powered, h) && Due(powered, h) == Stop(ok)
    ensures h != [] && h[0].ReadInfo? && forall k | 0 <= k < |h| :: Follows(powered, h[..k], h[k])
    ensures ok <==> h[|h| - 1] == ReadInfo(Shows(powered)) || (!powered && h[|h| - 1] == ReadInfo(Missing))
    ensures !ok <==> EndsInFailure(powered, h)
    ensures powered && h[0] == ReadInfo(Missing) ==> |h| >= 2 && h[1].ReadRfkill?
    ensures powered && h[0] == ReadInfo(Missing) && Usable(h[1].radio) && RfkillAnswered(h) ==>
              RfkillWrites(h) == if h[1].radio.unblocked then [false, true] else [true]
  {
    hide Due, Follows, EndsInFailure, RfkillAnswered, RfkillWrites, Reads;
    SuccessWasRead(powered, h, ok);
    NothingStops(powered);
    WhyRequestsFail(powered, h);
    forall k | 0 <= k < |h|
      ensures Follows(powered, h[..k], h[k])
    {
      CallFollows(powered, h, k);
    }
    FirstIsRead(powered, h);
    if powered && StartedMissing(h) { PulseIsWhole(powered, h); }
  }

  lemma NothingStops(powered: bool)
    ensures Due(powered, []) == DoReadInfo
  {
  }

  lemma FirstIsRead(powered: bool, h: History)
    requires Possible(powered, h) && h != []
    ensures h[0].ReadInfo?
  {
    assert h[..0] == [];
    assert Performs(h[0], Due(powered, h[..0]));
  }
}
