/** What holds of every run: an unmounted volume stays unmounted, and no volume is tried twice, until something in
    the run says otherwise. */
module StorageRuns {
  import opened Storage
  import opened StorageTheorems

  // Counting names

  ghost function SetOf(s: seq<Name>): set<Name> {
    set x | x in s
  }

  lemma {:induction false} DistinctCount(s: seq<Name>)
    requires Distinct(s)
    ensures |SetOf(s)| == |s|
  {
    if s != [] {
      var n := |s| - 1;
      DistinctCount(s[..n]);
      assert s[n] !in s[..n];
      assert SetOf(s) == SetOf(s[..n]) + {s[n]};
    }
  }

  lemma SubsetCount(a: set<Name>, b: set<Name>)
    requires a <= b
    ensures |a| <= |b|
  {
    assert b == a + (b - a);
  }

  // Pruning

  lemma {:induction false} PruneMembers(s: seq<Name>, seen: seq<Name>)
    ensures forall x :: x in Prune(s, seen) <==> x in s && x in seen
    ensures |Prune(s, seen)| <= |s|
  {
    if s != [] {
      PruneMembers(s[..|s| - 1], seen);
      assert s == s[..|s| - 1] + [s[|s| - 1]];
    }
  }

  lemma {:induction false} PruneDistinct(s: seq<Name>, seen: seq<Name>)
    requires Distinct(s)
    ensures Distinct(Prune(s, seen))
  {
    if s != [] {
      var n := |s| - 1;
      PruneDistinct(s[..n], seen);
      PruneMembers(s[..n], seen);
      assert s[n] !in s[..n];
    }
  }

  lemma {:induction false} PruneKeeps(s: seq<Name>, seen: seq<Name>)
    requires forall x | x in s :: x in seen
    ensures Prune(s, seen) == s
  {
    if s != [] {
      var n := |s| - 1;
      assert forall x | x in s[..n] :: x in s;
      PruneKeeps(s[..n], seen);
      assert s == s[..n] + [s[n]];
    }
  }

  lemma {:induction false} RemoveMembers(s: seq<Name>, name: Name)
    requires Distinct(s)
    ensures forall x :: x in Remove(s, name) <==> x in s && x != name
    ensures Distinct(Remove(s, name)) && |Remove(s, name)| <= |s|
  {
    if s != [] {
      var n := |s| - 1;
      RemoveMembers(s[..n], name);
      assert s[n] !in s[..n];
      assert s == s[..n] + [s[n]];
    }
  }

  // The lists of a lawful log

  lemma LawfulPrefix(log: seq<Entry>, n: nat)
    requires Lawful(log) && n <= |log|
    ensures Lawful(log[..n])
  {
    hide Justified;
    forall i | 0 <= i < n
      ensures Justified(log[..n][..i], log[..n][i])
    {
      assert log[..n][..i] == log[..i];
    }
  }

  lemma {:induction false} SeenIsAScan(log: seq<Entry>)
    requires Lawful(log)
    ensures |Seen(log)| <= SLOTS && Distinct(Seen(log))
    decreases |log|
  {
    hide Suppressed, Attempted;
    if log != [] {
      LawfulPrefix(log, |log| - 1);
      SeenIsAScan(log[..|log| - 1]);
      assert Justified(log[..|log| - 1], log[|log| - 1]);
    }
  }

  /** No name is suppressed twice, and only volumes that the last scan showed are suppressed. */
  lemma {:induction false} SuppressedIsSeen(log: seq<Entry>)
    requires Lawful(log)
    ensures Distinct(Suppressed(log))
    ensures forall x | x in Suppressed(log) :: x in Seen(log)
    decreases |log|
  {
    hide Attempted, Prune, Remove, Lawful;
    if log != [] {
      var before, last := log[..|log| - 1], log[|log| - 1];
      LawfulPrefix(log, |log| - 1);
      SuppressedIsSeen(before);
      assert Justified(before, last) by { LastJustified(log); }
      match last
      case MountPassed(name) => RemoveMembers(Suppressed(before), name);
      case Pruned(names) => PruneDistinct(Suppressed(before), names); PruneMembers(Suppressed(before), names);
      case _ =>
    }
  }

  lemma LastJustified(log: seq<Entry>)
    requires Lawful(log) && log != []
    ensures Justified(log[..|log| - 1], log[|log| - 1])
  {
    hide Justified;
  }

  /** The 32 slots are enough: a volume that can be unmounted finds room in the suppressed list. */
  lemma RoomToSuppress(log: seq<Entry>, name: Name)
    requires Lawful(log) && name in Seen(log)
    ensures name in Add(Suppressed(log), name)
    ensures name !in Suppressed(log) ==> |Suppressed(log)| < SLOTS
  {
    hide Suppressed, Seen, Lawful, Distinct;
    SuppressedIsSeen(log);
    SeenIsAScan(log);
    var suppressed, seen := Suppressed(log), Seen(log);
    DistinctCount(suppressed);
    DistinctCount(seen);
    if name !in suppressed {
      SubsetCount(SetOf(suppressed) + {name}, SetOf(seen));
    }
  }

  /** The two things that let a volume be mounted automatically again after it was unmounted by request. */
  predicate Releases(entry: Entry, name: Name) {
    entry == MountPassed(name) || (entry.Pruned? && name !in entry.names)
  }

  lemma SuppressedStep(log: seq<Entry>, entry: Entry, name: Name)
    requires Lawful(log) && name in Suppressed(log) && !Releases(entry, name)
    ensures name in Suppressed(log + [entry])
  {
    hide Attempted, Seen, Lawful, Remove, Prune;
    assert (log + [entry])[..|log|] == log;
    SuppressedIsSeen(log);
    match entry
    case MountPassed(other) => RemoveMembers(Suppressed(log), other);
    case Pruned(names) => PruneMembers(Suppressed(log), names);
    case _ =>
  }

  lemma {:induction false} SuppressedWhile(log: seq<Entry>, i: nat, k: nat, name: Name)
    requires Lawful(log) && i < k <= |log| && log[i] == Unmounted(name)
    requires forall m | i < m < k :: !Releases(log[m], name)
    ensures name in Suppressed(log[..k])
    decreases k
  {
    hide Releases, Attempted, Suppressed, Seen, Justified;
    if k == i + 1 {
      LawfulPrefix(log, i);
      assert log[..k] == log[..i] + [log[i]];
      assert Justified(log[..i], log[i]);
      UnmountSuppresses(log[..i], name);
    } else {
      SuppressedWhile(log, i, k - 1, name);
      LawfulPrefix(log, k - 1);
      assert log[..k] == log[..k - 1] + [log[k - 1]];
      SuppressedStep(log[..k - 1], log[k - 1], name);
    }
  }

  lemma UnmountSuppresses(log: seq<Entry>, name: Name)
    requires Lawful(log) && Justified(log, Unmounted(name))
    ensures name in Suppressed(log + [Unmounted(name)])
  {
    hide Attempted, Lawful, Add, Seen;
    assert (log + [Unmounted(name)])[..|log|] == log;
    RoomToSuppress(log, name);
  }

  ghost predicate ReleasedBetween(log: seq<Entry>, i: nat, j: nat, name: Name) {
    exists k | i < k < j && k < |log| :: Releases(log[k], name)
  }

  /** In every run: between unmounting a volume by request and mounting it automatically, a scan missed it or a mount
      request for it got past the mount. */
  lemma UnmountedStaysUnmounted(s: State, events: seq<Event>, i: nat, j: nat, name: Name)
    requires Fresh(s) && forall k | 0 <= k < |events| :: ValidScans(events[k])
    requires i < j < |Run(s, events).log|
    requires Run(s, events).log[i] == Unmounted(name) && Run(s, events).log[j] == AutoMount(name)
    ensures ReleasedBetween(Run(s, events).log, i, j, name)
  {
    hide Run, Releases, Suppressed, Attempted, Seen, Fresh, ValidScans;
    var log := Run(s, events).log;
    RunTraced(s, events);
    assert Justified(log[..j], log[j]);
    if !ReleasedBetween(log, i, j, name) { SuppressedWhile(log, i, j, name); }
  }

  // Attempts

  /** The unmounted, unsuppressed and not yet attempted names of a scan, in its order. */
  function Eligible(volumes: seq<Volume>, attempted: seq<Name>, suppressed: seq<Name>): seq<Name>
    decreases |volumes|
  {
    if volumes == [] then []
    else
      var n := |volumes| - 1;
      Eligible(volumes[..n], attempted, suppressed)
      + if !volumes[n].mounted && volumes[n].name !in attempted && volumes[n].name !in suppressed then [volumes[n].name] else []
  }

  predicate IsEligible(v: Volume, attempted: seq<Name>, suppressed: seq<Name>) {
    !v.mounted && v.name !in attempted && v.name !in suppressed
  }

  predicate EligibleIn(volumes: seq<Volume>, attempted: seq<Name>, suppressed: seq<Name>, name: Name) {
    exists v | v in volumes :: v.name == name && IsEligible(v, attempted, suppressed)
  }

  lemma {:induction false} EligibleMembers(volumes: seq<Volume>, attempted: seq<Name>, suppressed: seq<Name>, name: Name)
    ensures name in Eligible(volumes, attempted, suppressed) <==> EligibleIn(volumes, attempted, suppressed, name)
    decreases |volumes|
  {
    if volumes != [] {
      var n := |volumes| - 1;
      EligibleMembers(volumes[..n], attempted, suppressed, name);
      assert volumes == volumes[..n] + [volumes[n]];
    }
  }

  lemma NamesOf(volumes: seq<Volume>, name: Name)
    ensures name in Names(volumes) <==> exists v | v in volumes :: v.name == name
  {
    if v :| v in volumes && v.name == name {
      var k :| 0 <= k < |volumes| && volumes[k] == v;
      assert Names(volumes)[k] == name;
    }
  }

  lemma NamesPrefix(volumes: seq<Volume>)
    requires volumes != [] && Distinct(Names(volumes))
    ensures Names(volumes) == Names(volumes[..|volumes| - 1]) + [volumes[|volumes| - 1].name]
    ensures Distinct(Names(volumes[..|volumes| - 1]))
    ensures volumes[|volumes| - 1].name !in Names(volumes[..|volumes| - 1])
  {
    var n := |volumes| - 1;
    var front := Names(volumes[..n]);
    assert Names(volumes) == front + [volumes[n].name];
    assert forall i | 0 <= i < n :: front[i] == Names(volumes)[i];
  }

  lemma {:induction false} EligibleDistinct(volumes: seq<Volume>, attempted: seq<Name>, suppressed: seq<Name>)
    requires Distinct(Names(volumes))
    ensures Distinct(Eligible(volumes, attempted, suppressed))
    ensures forall x | x in Eligible(volumes, attempted, suppressed) :: x in Names(volumes) && x !in attempted
    ensures |Eligible(volumes, attempted, suppressed)| <= |volumes|
    decreases |volumes|
  {
    hide Names;
    if volumes != [] {
      EligibleDistinct(volumes[..|volumes| - 1], attempted, suppressed);
      NamesPrefix(volumes);
    }
  }

  function Min(a: int, b: int): int {
    if a <= b then a else b
  }

  function Recorded(attempted: seq<Name>, eligible: seq<Name>): seq<Name>
    requires |attempted| <= SLOTS
  {
    attempted + eligible[..Min(|eligible|, SLOTS - |attempted|)]
  }

  lemma RecordedSnoc(attempted: seq<Name>, eligible: seq<Name>, name: Name)
    requires |attempted| <= SLOTS && name !in attempted && name !in eligible
    ensures Recorded(attempted, eligible + [name]) == Add(Recorded(attempted, eligible), name)
    ensures name !in Recorded(attempted, eligible)
  {
    var room := SLOTS - |attempted|;
    if |eligible| < room {
      assert (eligible + [name])[..|eligible| + 1] == eligible + [name];
      assert eligible[..|eligible|] == eligible;
    } else {
      assert (eligible + [name])[..room] == eligible[..room];
    }
  }

  /** What one pass of the policy tries is exactly the eligible names, and it remembers as many as there are slots. */
  lemma {:induction false} TriedEligible(volumes: seq<Volume>, attempted: seq<Name>, suppressed: seq<Name>)
    requires Distinct(Names(volumes)) && |attempted| <= SLOTS
    ensures Tried(volumes, attempted, suppressed)
            == (Recorded(attempted, Eligible(volumes, attempted, suppressed)), Eligible(volumes, attempted, suppressed))
    decreases |volumes|
  {
    hide Names, Distinct, Recorded, Add;
    if volumes == [] {
      RecordedNothing(attempted);
    } else {
      var n := |volumes| - 1;
      NamesPrefix(volumes);
      TriedEligible(volumes[..n], attempted, suppressed);
      var before := Eligible(volumes[..n], attempted, suppressed);
      EligibleDistinct(volumes[..n], attempted, suppressed);
      if volumes[n].name in attempted {
        RecordedKeeps(attempted, before, volumes[n].name);
      } else {
        RecordedSnoc(attempted, before, volumes[n].name);
      }
      assert before + [] == before;
    }
  }

  lemma RecordedNothing(attempted: seq<Name>)
    requires |attempted| <= SLOTS
    ensures Recorded(attempted, []) == attempted
  {
  }

  lemma RecordedKeeps(attempted: seq<Name>, eligible: seq<Name>, name: Name)
    requires |attempted| <= SLOTS && name in attempted
    ensures name in Recorded(attempted, eligible)
  {
  }

  /** Whether the policy can remember everything it is about to try. */
  predicate Fits(s: State, volumes: seq<Volume>) {
    s.autoMount ==> |s.attempted| + |Eligible(volumes, s.attempted, s.suppressed)| <= SLOTS
  }

  /** It can when the attempted and the scanned names together take at most 32 slots. */
  lemma UnionFits(s: State, volumes: seq<Volume>)
    requires Distinct(s.attempted) && Distinct(Names(volumes))
    requires |SetOf(s.attempted) + SetOf(Names(volumes))| <= SLOTS
    ensures Fits(s, volumes)
  {
    hide Distinct, Names, Eligible;
    var eligible := Eligible(volumes, s.attempted, s.suppressed);
    EligibleDistinct(volumes, s.attempted, s.suppressed);
    DistinctCount(s.attempted);
    DistinctCount(eligible);
    assert SetOf(s.attempted) !! SetOf(eligible);
    assert |SetOf(s.attempted) + SetOf(eligible)| == |s.attempted| + |eligible|;
    SubsetCount(SetOf(s.attempted) + SetOf(eligible), SetOf(s.attempted) + SetOf(Names(volumes)));
  }

  // A log in which every attempt was remembered

  ghost predicate Roomy(log: seq<Entry>) {
    forall i | 0 <= i < |log| && log[i].AutoMount? :: |Attempted(log[..i])| < SLOTS
  }

  lemma RoomySnoc(log: seq<Entry>, entry: Entry)
    requires Roomy(log) && (entry.AutoMount? ==> |Attempted(log)| < SLOTS)
    ensures Roomy(log + [entry])
  {
    hide Attempted;
    var all := log + [entry];
    forall i | 0 <= i < |all| && all[i].AutoMount?
      ensures |Attempted(all[..i])| < SLOTS
    {
      assert all[..i] == if i == |log| then log else log[..i];
    }
  }

  lemma {:induction false} AttemptedDistinct(log: seq<Entry>)
    ensures Distinct(Attempted(log)) && |Attempted(log)| <= SLOTS
    decreases |log|
  {
    hide Prune, Remove;
    if log != [] {
      var before := log[..|log| - 1];
      AttemptedDistinct(before);
      match log[|log| - 1]
      case BlockEvent(name) => RemoveMembers(Attempted(before), name);
      case Pruned(names) => PruneDistinct(Attempted(before), names); PruneMembers(Attempted(before), names);
      case _ =>
    }
  }

  /** The three things that let a volume be tried automatically again. */
  predicate Forgets(entry: Entry, name: Name) {
    entry == BlockEvent(name) || entry == TurnedOn || (entry.Pruned? && name !in entry.names)
  }

  lemma AttemptedStep(log: seq<Entry>, entry: Entry, name: Name)
    requires name in Attempted(log) && !Forgets(entry, name)
    ensures name in Attempted(log + [entry])
  {
    hide Remove, Prune;
    assert (log + [entry])[..|log|] == log;
    AttemptedDistinct(log);
    match entry
    case BlockEvent(other) => RemoveMembers(Attempted(log), other);
    case Pruned(names) => PruneMembers(Attempted(log), names);
    case _ =>
  }

  lemma {:induction false} AttemptedWhile(log: seq<Entry>, i: nat, k: nat, name: Name)
    requires Roomy(log) && i < k <= |log| && log[i] == AutoMount(name)
    requires forall m | i < m < k :: !Forgets(log[m], name)
    ensures name in Attempted(log[..k])
    decreases k
  {
    hide Forgets, Attempted;
    if k == i + 1 {
      assert log[..k][..i] == log[..i];
      AttemptRecorded(log[..i], name);
      assert log[..k] == log[..i] + [log[i]];
    } else {
      AttemptedWhile(log, i, k - 1, name);
      assert log[..k] == log[..k - 1] + [log[k - 1]];
      AttemptedStep(log[..k - 1], log[k - 1], name);
    }
  }

  lemma AttemptRecorded(log: seq<Entry>, name: Name)
    requires |Attempted(log)| < SLOTS
    ensures name in Attempted(log + [AutoMount(name)])
  {
    assert (log + [AutoMount(name)])[..|log|] == log;
  }

  lemma {:induction false} TriesRoomy(log: seq<Entry>, names: seq<Name>)
    requires Roomy(log) && |Attempted(log)| + |names| <= SLOTS
    ensures Roomy(log + AutoMounts(names))
    ensures |Attempted(log + AutoMounts(names))| <= |Attempted(log)| + |names|
    decreases |names|
  {
    hide Roomy, Attempted;
    if names == [] {
      assert log + AutoMounts(names) == log;
    } else {
      var n := |names| - 1;
      TriesRoomy(log, names[..n]);
      assert log + AutoMounts(names) == log + AutoMounts(names[..n]) + [AutoMount(names[n])];
      RoomySnoc(log + AutoMounts(names[..n]), AutoMount(names[n]));
      OneAttempt(log + AutoMounts(names[..n]), names[n]);
    }
  }

  lemma OneAttempt(log: seq<Entry>, name: Name)
    ensures |Attempted(log + [AutoMount(name)])| <= |Attempted(log)| + 1
  {
    assert (log + [AutoMount(name)])[..|log|] == log;
  }

  lemma RefreshRoomy(s: State, log: seq<Entry>, scans: Scans)
    requires Traced(s, log) && Roomy(log) && ValidScan(scans.first) && Fits(s, scans.first)
    ensures Roomy(log + RefreshNext(s, scans).log)
  {
    hide Roomy, Lawful, Attempted, Suppressed, Seen, Tried, Eligible, Recorded, Settle, Names, Distinct;
    if !s.autoMount {
      RoomySnoc(log, Pruned(Names(scans.first)));
    } else {
      var tried := Eligible(scans.first, s.attempted, s.suppressed);
      AttemptedDistinct(log);
      TriedEligible(scans.first, s.attempted, s.suppressed);
      TriesRoomy(log, tried);
      RoomySnoc(log + AutoMounts(tried), Pruned(Names(scans.seen)));
      assert log + (AutoMounts(tried) + [Pruned(Names(scans.seen))]) == log + AutoMounts(tried) + [Pruned(Names(scans.seen))];
    }
  }

  /** Entries that are not automatic mounts need no room. */
  lemma {:induction false} QuietRoomy(log: seq<Entry>, more: seq<Entry>)
    requires Roomy(log) && forall k | 0 <= k < |more| :: !more[k].AutoMount?
    ensures Roomy(log + more)
    decreases |more|
  {
    hide Roomy;
    if more == [] {
      assert log + more == log;
    } else {
      var n := |more| - 1;
      QuietRoomy(log, more[..n]);
      assert log + more == log + more[..n] + [more[n]];
      RoomySnoc(log + more[..n], more[n]);
    }
  }

  /** Every refresh that the event makes with the policy can remember what it tries. */
  predicate FitsEvent(s: State, e: Event) {
    match e
    case Refresh(scans) => Fits(s, scans.first)
    case Configure(enabled, writes, scans) => enabled && writes ==> Fits(Configured(s, enabled).state, scans.first)
    case Uevent(device, scans) => Fits(Forgot(s, device).state, scans.first)
    case _ => true
  }

  lemma ConfigureRoomy(s: State, log: seq<Entry>, e: Event)
    requires e.Configure? && Traced(s, log) && Roomy(log) && ValidScans(e) && FitsEvent(s, e)
    ensures Roomy(log + ConfigureNext(s, e).log)
  {
    hide Roomy, Traced, Fits, RefreshNext, ValidScan;
    if e.writes {
      var applied := Configured(s, e.enabled);
      ConfiguredTraced(s, log, e.enabled);
      QuietRoomy(log, applied.log);
      if e.enabled {
        RefreshRoomy(applied.state, log + applied.log, e.scans);
        assert log + (applied.log + RefreshNext(applied.state, e.scans).log)
            == log + applied.log + RefreshNext(applied.state, e.scans).log;
      }
    } else {
      assert log + [] == log;
    }
  }

  lemma UeventRoomy(s: State, log: seq<Entry>, e: Event)
    requires e.Uevent? && Traced(s, log) && Roomy(log) && ValidScans(e) && FitsEvent(s, e)
    ensures Roomy(log + UeventNext(s, e).log)
  {
    hide Roomy, Traced, Fits, RefreshNext, ValidScan;
    var forgot := Forgot(s, e.device);
    ForgotTraced(s, log, e.device);
    QuietRoomy(log, forgot.log);
    RefreshRoomy(forgot.state, log + forgot.log, e.scans);
    assert log + (forgot.log + RefreshNext(forgot.state, e.scans).log)
        == log + forgot.log + RefreshNext(forgot.state, e.scans).log;
  }

  lemma RequestsAreQuiet(s: State, e: Event)
    requires e.Mount? || e.Unmount?
    ensures forall k | 0 <= k < |Next(s, e).log| :: !Next(s, e).log[k].AutoMount?
  {
    hide Settle, Find, Remove, Add;
  }

  ghost predicate RunFits(s: State, events: seq<Event>) {
    forall k | 0 <= k < |events| :: FitsEvent(Run(s, events[..k]).state, events[k])
  }

  lemma {:induction false} RunRoomy(s: State, events: seq<Event>)
    requires Fresh(s) && forall k | 0 <= k < |events| :: ValidScans(events[k])
    requires RunFits(s, events)
    ensures Roomy(Run(s, events).log)
    decreases |events|
  {
    hide Roomy, Traced, Fresh, ValidScans, FitsEvent, MountNext, UnmountNext, ConfigureNext, UeventNext, RefreshNext;
    if events != [] {
      var n := |events| - 1;
      RunFitsPrefix(s, events, n);
      RunRoomy(s, events[..n]);
      RunTraced(s, events[..n]);
      var before, e := Run(s, events[..n]), events[n];
      assert FitsEvent(before.state, e);
      match e
      case Refresh(scans) => RefreshFits(before.state, e); RefreshScans(e); RefreshRoomy(before.state, before.log, scans);
      case Configure(_, _, _) => ConfigureRoomy(before.state, before.log, e);
      case Uevent(_, _) => UeventRoomy(before.state, before.log, e);
      case _ => RequestsAreQuiet(before.state, e); QuietRoomy(before.log, Next(before.state, e).log);
    } else {
      EmptyRoomy();
    }
  }

  lemma EmptyRoomy()
    ensures Roomy([])
  {
  }

  lemma RefreshFits(s: State, e: Event)
    requires e.Refresh? && FitsEvent(s, e)
    ensures Fits(s, e.scans.first)
  {
  }

  lemma RunFitsPrefix(s: State, events: seq<Event>, n: nat)
    requires RunFits(s, events) && n <= |events|
    ensures RunFits(s, events[..n])
  {
    hide Run, FitsEvent;
    forall k | 0 <= k < n
      ensures FitsEvent(Run(s, events[..n][..k]).state, events[..n][k])
    {
      assert events[..n][..k] == events[..k];
    }
  }

  ghost predicate ForgottenBetween(log: seq<Entry>, i: nat, j: nat, name: Name) {
    exists k | i < k < j && k < |log| :: Forgets(log[k], name)
  }

  /** In every run whose refreshes can remember what they try: between two automatic mounts of one volume a block event
      named it, automatic mounting was turned on, or a scan missed it. */
  lemma TriedOnce(s: State, events: seq<Event>, i: nat, j: nat, name: Name)
    requires Fresh(s) && forall k | 0 <= k < |events| :: ValidScans(events[k])
    requires RunFits(s, events)
    requires i < j < |Run(s, events).log|
    requires Run(s, events).log[i] == AutoMount(name) && Run(s, events).log[j] == AutoMount(name)
    ensures ForgottenBetween(Run(s, events).log, i, j, name)
  {
    hide Run, RunFits, Forgets, Suppressed, Attempted, Seen, Fresh, ValidScans, Roomy;
    var log := Run(s, events).log;
    RunTraced(s, events);
    RunRoomy(s, events);
    assert Justified(log[..j], log[j]);
    if !ForgottenBetween(log, i, j, name) { AttemptedWhile(log, i, j, name); }
  }

  // Refreshing twice

  ghost predicate UnmountedIn(volumes: seq<Volume>, name: Name) {
    exists v | v in volumes :: v.name == name && !v.mounted
  }

  /** Nothing was unmounted or plugged in between the two scans. */
  ghost predicate NothingNew(first: seq<Volume>, seen: seq<Volume>) {
    forall v | v in seen && !v.mounted :: UnmountedIn(first, v.name)
  }

  lemma NoneEligible(volumes: seq<Volume>, attempted: seq<Name>, suppressed: seq<Name>)
    requires forall v | v in volumes :: !IsEligible(v, attempted, suppressed)
    ensures Eligible(volumes, attempted, suppressed) == []
  {
    hide IsEligible, Eligible;
    var eligible := Eligible(volumes, attempted, suppressed);
    if eligible != [] { EligibleMembers(volumes, attempted, suppressed, eligible[0]); }
  }

  /** What a refresh remembers is still remembered, and nothing else is, once its lists are pruned to what it saw. */
  lemma PrunedEligible(v: Volume, attempted: seq<Name>, suppressed: seq<Name>, seen: seq<Name>)
    requires v.name in seen
    ensures IsEligible(v, Prune(attempted, seen), Prune(suppressed, seen)) <==> IsEligible(v, attempted, suppressed)
  {
    PruneMembers(attempted, seen);
    PruneMembers(suppressed, seen);
  }

  lemma PruneTwice(s: seq<Name>, seen: seq<Name>)
    ensures Prune(Prune(s, seen), seen) == Prune(s, seen)
  {
    PruneMembers(s, seen);
    PruneKeeps(Prune(s, seen), seen);
  }

  lemma SettleTwice(s: State, seen: seq<Volume>)
    ensures Settle(Settle(s, seen), seen) == Settle(s, seen)
  {
    PruneTwice(s.suppressed, Names(seen));
    PruneTwice(s.attempted, Names(seen));
  }

  lemma AllRecorded(attempted: seq<Name>, eligible: seq<Name>)
    requires |attempted| + |eligible| <= SLOTS
    ensures Recorded(attempted, eligible) == attempted + eligible
  {
    assert eligible[..|eligible|] == eligible;
  }

  /** The state in which the second of two refreshes starts. */
  lemma FirstRefresh(s: State, scans: Scans)
    requires s.autoMount && |s.attempted| <= SLOTS && ValidScan(scans.first)
    ensures var eligible := Eligible(scans.first, s.attempted, s.suppressed);
            RefreshNext(s, scans)
            == Step(Settle(s.(attempted := Recorded(s.attempted, eligible)), scans.seen), Ok,
                    AutoMounts(eligible) + [Pruned(Names(scans.seen))])
  {
    hide Settle, Recorded, Eligible, Tried, Names, Distinct;
    TriedEligible(scans.first, s.attempted, s.suppressed);
  }

  lemma NoneLeft(s: State, first: seq<Volume>, seen: seq<Volume>)
    requires ValidScan(first) && NothingNew(first, seen)
    requires |s.attempted| + |Eligible(first, s.attempted, s.suppressed)| <= SLOTS
    ensures var recorded := Recorded(s.attempted, Eligible(first, s.attempted, s.suppressed));
            Eligible(seen, Prune(recorded, Names(seen)), Prune(s.suppressed, Names(seen))) == []
  {
    hide Eligible, Recorded, Prune, Distinct;
    var eligible := Eligible(first, s.attempted, s.suppressed);
    AllRecorded(s.attempted, eligible);
    forall v | v in seen
      ensures !IsEligible(v, Prune(Recorded(s.attempted, eligible), Names(seen)), Prune(s.suppressed, Names(seen)))
    {
      NamesOf(seen, v.name);
      PrunedEligible(v, Recorded(s.attempted, eligible), s.suppressed, Names(seen));
      EligibleMembers(first, s.attempted, s.suppressed, v.name);
      assert !v.mounted ==> UnmountedIn(first, v.name);
    }
    NoneEligible(seen, Prune(Recorded(s.attempted, eligible), Names(seen)), Prune(s.suppressed, Names(seen)));
  }

  lemma RecordedCount(attempted: seq<Name>, eligible: seq<Name>, seen: seq<Name>)
    requires |attempted| <= SLOTS
    ensures |Prune(Recorded(attempted, eligible), seen)| <= SLOTS
  {
    PruneMembers(Recorded(attempted, eligible), seen);
  }

  /** A second refresh in an unchanged environment tries nothing and changes nothing, revisions included. */
  lemma SecondRefreshIsIdle(s: State, first: seq<Volume>, seen: seq<Volume>)
    requires s.autoMount && |s.attempted| <= SLOTS && ValidScan(first) && ValidScan(seen)
    requires Fits(s, first) && NothingNew(first, seen)
    ensures var once := RefreshNext(s, Scans(first, seen)).state;
            RefreshNext(once, Scans(seen, seen)) == Step(once, Ok, [Pruned(Names(seen))])
  {
    hide Eligible, Recorded, Prune, Names, RefreshNext, Distinct, NothingNew;
    FirstRefresh(s, Scans(first, seen));
    var recorded := Recorded(s.attempted, Eligible(first, s.attempted, s.suppressed));
    var once := Settle(s.(attempted := recorded), seen);
    RecordedCount(s.attempted, Eligible(first, s.attempted, s.suppressed), Names(seen));
    FirstRefresh(once, Scans(seen, seen));
    NoneLeft(s, first, seen);
    RecordedNothing(once.attempted);
    SettleTwice(s.(attempted := recorded), seen);
    assert AutoMounts([]) + [Pruned(Names(seen))] == [Pruned(Names(seen))];
  }

  lemma ForgottenEligible(s: State, scan: seq<Volume>) returns (name: Name)
    requires |s.attempted| <= SLOTS && ValidScan(scan)
    requires |s.attempted| + |Eligible(scan, s.attempted, s.suppressed)| > SLOTS
    ensures var eligible := Eligible(scan, s.attempted, s.suppressed);
            var recorded := Recorded(s.attempted, eligible);
            && name in eligible
            && name in Eligible(scan, Prune(recorded, Names(scan)), Prune(s.suppressed, Names(scan)))
  {
    hide Eligible, Prune, Names;
    var eligible := Eligible(scan, s.attempted, s.suppressed);
    var recorded := Recorded(s.attempted, eligible);
    EligibleDistinct(scan, s.attempted, s.suppressed);
    name := eligible[SLOTS - |s.attempted|];
    assert name !in recorded;
    EligibleMembers(scan, s.attempted, s.suppressed, name);
    assert EligibleIn(scan, s.attempted, s.suppressed, name);
    var v :| v in scan && v.name == name && IsEligible(v, s.attempted, s.suppressed);
    PrunedEligible(v, recorded, s.suppressed, Names(scan));
    EligibleMembers(scan, Prune(recorded, Names(scan)), Prune(s.suppressed, Names(scan)), name);
  }

  /** The same volumes, mounted or not as before; failed mounts may have changed what else a scan shows. */
  predicate SameMounts(a: seq<Volume>, b: seq<Volume>) {
    |a| == |b| && forall i | 0 <= i < |a| :: a[i].name == b[i].name && a[i].mounted == b[i].mounted
  }

  lemma {:induction false} SameEligible(a: seq<Volume>, b: seq<Volume>, attempted: seq<Name>, suppressed: seq<Name>)
    requires SameMounts(a, b)
    ensures Eligible(a, attempted, suppressed) == Eligible(b, attempted, suppressed)
    decreases |a|
  {
    if a != [] { SameEligible(a[..|a| - 1], b[..|b| - 1], attempted, suppressed); }
  }

  lemma SameNames(a: seq<Volume>, b: seq<Volume>)
    requires SameMounts(a, b)
    ensures Names(a) == Names(b)
  {
  }

  lemma Unchanged(a: seq<Volume>, b: seq<Volume>)
    requires SameMounts(a, b)
    ensures NothingNew(a, b)
  {
    forall v | v in b && !v.mounted
      ensures UnmountedIn(a, v.name)
    {
      var k :| 0 <= k < |b| && b[k] == v;
      assert a[k] in a && a[k].name == v.name;
    }
  }

  /** The 32-slot condition is exact: when every mount fails and no volume comes, goes or is mounted, the next refresh
      tries no volume again exactly when the first one could remember all that it tried. */
  lemma RetriesExactlyOnOverflow(s: State, scan: seq<Volume>, seen: seq<Volume>, last: seq<Volume>)
    requires s.autoMount && |s.attempted| <= SLOTS && ValidScan(scan) && ValidScan(seen)
    requires SameMounts(scan, seen)
    ensures var once := RefreshNext(s, Scans(scan, seen));
            var twice := RefreshNext(once.state, Scans(seen, last));
            Fits(s, scan) <==> forall name :: AutoMount(name) in once.log ==> AutoMount(name) !in twice.log
  {
    hide Eligible, Recorded, Prune, Names, RefreshNext, Distinct, ValidScan, SameMounts;
    var once := RefreshNext(s, Scans(scan, seen));
    var eligible := Eligible(scan, s.attempted, s.suppressed);
    FirstRefresh(s, Scans(scan, seen));
    RecordedCount(s.attempted, eligible, Names(seen));
    FirstRefresh(once.state, Scans(seen, last));
    var again := Eligible(seen, once.state.attempted, once.state.suppressed);
    if Fits(s, scan) {
      Unchanged(scan, seen);
      NoneLeft(s, scan, seen);
    } else {
      SameNames(scan, seen);
      SameEligible(scan, seen, once.state.attempted, once.state.suppressed);
      var name := ForgottenEligible(s, scan);
      AutoMountsIn(eligible, name, [Pruned(Names(seen))]);
      AutoMountsIn(again, name, [Pruned(Names(last))]);
    }
  }

  lemma AutoMountsIn(names: seq<Name>, name: Name, rest: seq<Entry>)
    requires name in names
    ensures AutoMount(name) in AutoMounts(names) + rest
  {
    var k :| 0 <= k < |names| && names[k] == name;
    assert (AutoMounts(names) + rest)[k] == AutoMount(name);
  }
}
