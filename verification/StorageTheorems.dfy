/** What automatic mounting keeps over whole runs. */
module StorageTheorems {
  import opened Storage

  // The two lists are what the log makes of them.

  function Suppressed(log: seq<Entry>): seq<Name>
    decreases |log|
  {
    if log == [] then []
    else
      var before := Suppressed(log[..|log| - 1]);
      match log[|log| - 1]
      case Unmounted(name) => Add(before, name)
      case MountPassed(name) => Remove(before, name)
      case Pruned(names) => Prune(before, names)
      case _ => before
  }

  function Attempted(log: seq<Entry>): seq<Name>
    decreases |log|
  {
    if log == [] then []
    else
      var before := Attempted(log[..|log| - 1]);
      match log[|log| - 1]
      case AutoMount(name) => Add(before, name)
      case BlockEvent(name) => Remove(before, name)
      case TurnedOn => []
      case Pruned(names) => Prune(before, names)
      case _ => before
  }

  /** What the last refresh saw. */
  function Seen(log: seq<Entry>): seq<Name>
    decreases |log|
  {
    if log == [] then []
    else if log[|log| - 1].Pruned? then log[|log| - 1].names else Seen(log[..|log| - 1])
  }

  /** What the entry at the end of a log had to find before it. */
  predicate Justified(before: seq<Entry>, entry: Entry) {
    match entry
    case AutoMount(name) => name !in Suppressed(before) && name !in Attempted(before)
    case Unmounted(name) => name in Seen(before)
    case Pruned(names) => |names| <= SLOTS && Distinct(names)
    case _ => true
  }

  ghost predicate Lawful(log: seq<Entry>) {
    forall i | 0 <= i < |log| :: Justified(log[..i], log[i])
  }

  /** The state is what its log says. */
  ghost predicate Traced(s: State, log: seq<Entry>) {
    Lawful(log) && s.suppressed == Suppressed(log) && s.attempted == Attempted(log) && Names(s.cache) == Seen(log)
  }

  lemma LawfulSnoc(log: seq<Entry>, entry: Entry)
    requires Lawful(log) && Justified(log, entry)
    ensures Lawful(log + [entry])
    ensures (log + [entry])[..|log|] == log
  {
    hide Justified;
    var all := log + [entry];
    forall i | 0 <= i < |all|
      ensures Justified(all[..i], all[i])
    {
      assert all[..i] == log[..i] || i == |log|;
      if i == |log| { assert all[..i] == log; }
    }
  }

  /** One refresh's tail: prune both lists to what was seen. */
  lemma LookTraced(s: State, log: seq<Entry>, seen: seq<Volume>)
    requires Traced(s, log) && ValidScan(seen)
    ensures Traced(Look(s, seen).state, log + Look(s, seen).log)
  {
    hide Prune, Lawful;
    LawfulSnoc(log, Pruned(Names(seen)));
  }

  lemma {:induction false} TriedTraced(s: State, log: seq<Entry>, volumes: seq<Volume>)
    requires Traced(s, log)
    ensures var (attempted, tried) := Tried(volumes, s.attempted, s.suppressed);
            Traced(s.(attempted := attempted), log + AutoMounts(tried))
    decreases |volumes|
  {
    hide Lawful, Suppressed, Attempted, Seen;
    if volumes == [] {
      assert log + AutoMounts([]) == log;
    } else {
      var n := |volumes| - 1;
      TriedTraced(s, log, volumes[..n]);
      var (now, tried) := Tried(volumes[..n], s.attempted, s.suppressed);
      var v := volumes[n];
      if !v.mounted && v.name !in now && v.name !in s.suppressed {
        OneTried(s.(attempted := now), log + AutoMounts(tried), v.name);
        assert log + AutoMounts(tried + [v.name]) == log + AutoMounts(tried) + [AutoMount(v.name)];
      }
    }
  }

  lemma OneTried(s: State, log: seq<Entry>, name: Name)
    requires Traced(s, log) && name !in s.attempted && name !in s.suppressed
    ensures Traced(s.(attempted := Add(s.attempted, name)), log + [AutoMount(name)])
  {
    hide Lawful, Add;
    LawfulSnoc(log, AutoMount(name));
  }

  lemma RefreshTraced(s: State, log: seq<Entry>, scans: Scans)
    requires Traced(s, log) && ValidScan(scans.first) && ValidScan(scans.seen)
    ensures Traced(RefreshNext(s, scans).state, log + RefreshNext(s, scans).log)
  {
    hide Traced, Tried, Settle, ValidScan;
    if !s.autoMount {
      LookTraced(s, log, scans.first);
    } else {
      var (attempted, tried) := Tried(scans.first, s.attempted, s.suppressed);
      TriedTraced(s, log, scans.first);
      LookTraced(s.(attempted := attempted), log + AutoMounts(tried), scans.seen);
      assert log + (AutoMounts(tried) + [Pruned(Names(scans.seen))])
          == log + AutoMounts(tried) + [Pruned(Names(scans.seen))];
    }
  }

  lemma EntryTraced(s: State, log: seq<Entry>, entry: Entry)
    requires Traced(s, log) && Justified(log, entry) && !entry.Pruned?
    ensures Traced(match entry
                   case AutoMount(name) => s.(attempted := Add(s.attempted, name))
                   case Unmounted(name) => s.(suppressed := Add(s.suppressed, name))
                   case MountPassed(name) => s.(suppressed := Remove(s.suppressed, name))
                   case BlockEvent(name) => s.(attempted := Remove(s.attempted, name))
                   case TurnedOn => s.(attempted := [])
                   case Pruned(_) => s,
                   log + [entry])
  {
    hide Lawful, Add, Remove;
    LawfulSnoc(log, entry);
  }

  /** `b` continues `a`, which continued `log`. */
  lemma ThenTraced(log: seq<Entry>, a: Step, b: Step)
    requires Traced(b.state, log + a.log + b.log)
    ensures Traced(Then(a, b).state, log + Then(a, b).log)
  {
    hide Traced;
    assert log + (a.log + b.log) == log + a.log + b.log;
  }

  lemma PassMountTraced(s: State, log: seq<Entry>, e: Event)
    requires Traced(s, log) && e.Mount? && ValidScans(e)
    ensures Traced(PassMount(s, e).state, log + PassMount(s, e).log)
  {
    hide Traced, Find, Settle, ValidScan, Remove;
    var passed := Step(s.(suppressed := Remove(s.suppressed, e.name)), Ok, [MountPassed(e.name)]);
    EntryTraced(s, log, MountPassed(e.name));
    LookTraced(passed.state, log + passed.log, e.after);
    var observed := Then(passed, Look(passed.state, e.after));
    ThenTraced(log, passed, Look(passed.state, e.after));
    LookTraced(observed.state, log + observed.log, e.again);
    ThenTraced(log, observed, Look(observed.state, e.again).(code := MountFailed));
  }

  lemma MountTraced(s: State, log: seq<Entry>, e: Event)
    requires Traced(s, log) && e.Mount? && ValidScans(e)
    ensures Traced(MountNext(s, e).state, log + MountNext(s, e).log)
  {
    hide Traced, Find, Settle, ValidScan, PassMount;
    var looked := Look(s, e.before);
    LookTraced(s, log, e.before);
    LookTraced(looked.state, log + looked.log, e.after);
    ThenTraced(log, looked, Look(looked.state, e.after).(code := MountFailed));
    PassMountTraced(looked.state, log + looked.log, e);
    ThenTraced(log, looked, PassMount(looked.state, e));
  }

  lemma PassUnmountTraced(s: State, log: seq<Entry>, e: Event, wasMounted: bool)
    requires Traced(s, log) && e.Unmount? && ValidScans(e) && e.name in Seen(log)
    ensures Traced(PassUnmount(s, e, wasMounted).state, log + PassUnmount(s, e, wasMounted).log)
  {
    hide Traced, Find, Settle, ValidScan, Add;
    var done := if wasMounted then Step(s.(suppressed := Add(s.suppressed, e.name)), Ok, [Unmounted(e.name)])
                else Step(s, Ok, []);
    assert log + [] == log;
    if wasMounted { EntryTraced(s, log, Unmounted(e.name)); }
    LookTraced(done.state, log + done.log, e.after);
    ThenTraced(log, done, Look(done.state, e.after));
  }

  lemma UnmountTraced(s: State, log: seq<Entry>, e: Event)
    requires Traced(s, log) && e.Unmount? && ValidScans(e)
    ensures Traced(UnmountNext(s, e).state, log + UnmountNext(s, e).log)
  {
    hide Traced, Find, Settle, ValidScan, PassUnmount;
    var looked := Look(s, e.before);
    LookTraced(s, log, e.before);
    LookTraced(looked.state, log + looked.log, e.after);
    ThenTraced(log, looked, Look(looked.state, e.after).(code := UnmountFailed));
    var found := Find(e.before, e.name);
    if found.Some? {
      SeenAfterLook(log, e.before);
      PassUnmountTraced(looked.state, log + looked.log, e, found.value.mounted);
      ThenTraced(log, looked, PassUnmount(looked.state, e, found.value.mounted));
    }
  }

  lemma SeenAfterLook(log: seq<Entry>, seen: seq<Volume>)
    ensures Seen(log + [Pruned(Names(seen))]) == Names(seen)
  {
  }

  lemma ConfiguredTraced(s: State, log: seq<Entry>, enabled: bool)
    requires Traced(s, log)
    ensures Traced(Configured(s, enabled).state, log + Configured(s, enabled).log)
  {
    hide Suppressed, Attempted, Seen, Lawful;
    assert log + [] == log;
    EntryTraced(s, log, TurnedOn);
  }

  lemma ConfigureTraced(s: State, log: seq<Entry>, e: Event)
    requires Traced(s, log) && e.Configure? && ValidScans(e)
    ensures Traced(ConfigureNext(s, e).state, log + ConfigureNext(s, e).log)
  {
    hide ValidScan, RefreshNext, Configured;
    if e.writes {
      var applied := Configured(s, e.enabled);
      ConfiguredTraced(s, log, e.enabled);
      if e.enabled {
        RefreshTraced(applied.state, log + applied.log, e.scans);
        ThenTraced(log, applied, RefreshNext(applied.state, e.scans));
      }
    } else {
      assert log + [] == log;
    }
  }

  lemma ForgotTraced(s: State, log: seq<Entry>, device: Option<Name>)
    requires Traced(s, log)
    ensures Traced(Forgot(s, device).state, log + Forgot(s, device).log)
  {
    hide Traced;
    assert log + [] == log;
    if device.Some? { EntryTraced(s, log, BlockEvent(device.value)); }
  }

  lemma UeventTraced(s: State, log: seq<Entry>, e: Event)
    requires Traced(s, log) && e.Uevent? && ValidScans(e)
    ensures Traced(UeventNext(s, e).state, log + UeventNext(s, e).log)
  {
    hide Traced, RefreshNext, Forgot, ValidScan;
    var forgot := Forgot(s, e.device);
    ForgotTraced(s, log, e.device);
    RefreshTraced(forgot.state, log + forgot.log, e.scans);
    ThenTraced(log, forgot, RefreshNext(forgot.state, e.scans));
  }

  lemma {:induction false} RunTraced(s: State, events: seq<Event>)
    requires Fresh(s) && forall k | 0 <= k < |events| :: ValidScans(events[k])
    ensures Traced(Run(s, events).state, Run(s, events).log)
    decreases |events|
  {
    hide Traced, Fresh, ValidScans, MountNext, UnmountNext, ConfigureNext, UeventNext, RefreshNext;
    if events == [] {
      FreshTraced(s);
    } else {
      var n := |events| - 1;
      RunTraced(s, events[..n]);
      var before, e := Run(s, events[..n]), events[n];
      match e
      case Refresh(scans) => assert ValidScan(scans.first) && ValidScan(scans.seen) by { RefreshScans(e); } RefreshTraced(before.state, before.log, scans);
      case Mount(_, _, _, _, _) => MountTraced(before.state, before.log, e);
      case Unmount(_, _, _, _) => UnmountTraced(before.state, before.log, e);
      case Configure(_, _, _) => ConfigureTraced(before.state, before.log, e);
      case Uevent(_, _) => UeventTraced(before.state, before.log, e);
    }
  }

  lemma FreshTraced(s: State)
    requires Fresh(s)
    ensures Traced(s, [])
  {
  }

  lemma RefreshScans(e: Event)
    requires e.Refresh? && ValidScans(e)
    ensures ValidScan(e.scans.first) && ValidScan(e.scans.seen)
  {
  }
}
