/** What each storage request does and answers, in terms of the request, of the scans and of the outcomes of commands. */
module StorageAnswers {
  import opened Storage
  import opened StorageTheorems
  import opened StorageRuns

  // The setting

  /** The setting of the last configuration request that was written. */
  function LastSetting(initial: bool, events: seq<Event>): bool
    decreases |events|
  {
    if events == [] then initial
    else
      var e := events[|events| - 1];
      if e.Configure? && e.writes then e.enabled else LastSetting(initial, events[..|events| - 1])
  }

  /** Whether the last configuration request failed to be written. */
  function LastFailed(initial: bool, events: seq<Event>): bool
    decreases |events|
  {
    if events == [] then initial
    else
      var e := events[|events| - 1];
      if e.Configure? then !e.writes else LastFailed(initial, events[..|events| - 1])
  }

  lemma SettingStep(s: State, e: Event)
    ensures Next(s, e).state.autoMount == if e.Configure? && e.writes then e.enabled else s.autoMount
    ensures Next(s, e).state.configError == if e.Configure? then !e.writes else s.configError
  {
    hide Tried, Find, Prune, Remove, Add, Names;
  }

  /** In every run the setting in force is the last one written, and the error shows whether the last request failed. */
  lemma {:induction false} SettingIsLastWritten(s: State, events: seq<Event>)
    ensures Run(s, events).state.autoMount == LastSetting(s.autoMount, events)
    ensures Run(s, events).state.configError == LastFailed(s.configError, events)
    decreases |events|
  {
    hide Next;
    if events != [] {
      var n := |events| - 1;
      SettingIsLastWritten(s, events[..n]);
      SettingStep(Run(s, events[..n]).state, events[n]);
    }
  }

  predicate TurnsOn(e: Event) {
    e.Configure? && e.writes && e.enabled
  }

  predicate MountsNothing(log: seq<Entry>) {
    forall k | 0 <= k < |log| :: !log[k].AutoMount?
  }

  lemma OffMountsNothing(s: State, e: Event)
    requires !s.autoMount && !TurnsOn(e)
    ensures MountsNothing(Next(s, e).log)
  {
    hide Settle, Find, Remove, Add, Tried;
  }

  lemma {:induction false} OffStaysOff(initial: bool, events: seq<Event>, i: nat)
    requires i < |events| && events[i].Configure? && events[i].writes && !events[i].enabled
    requires forall m | i < m < |events| :: !TurnsOn(events[m])
    ensures !LastSetting(initial, events)
    decreases |events|
  {
    var n := |events| - 1;
    if i < n { OffStaysOff(initial, events[..n], i); }
  }

  /** In every run, once automatic mounting was turned off, nothing is mounted automatically until a request to turn it on
      is written. */
  lemma NothingMountsWhileOff(s: State, events: seq<Event>, i: nat, k: nat)
    requires i <= k < |events| && events[i].Configure? && events[i].writes && !events[i].enabled
    requires forall m | i < m <= k :: !TurnsOn(events[m])
    ensures MountsNothing(Next(Run(s, events[..k]).state, events[k]).log)
  {
    hide Run, Next, LastSetting, MountsNothing;
    if i == k {
      TurnsOffQuietly(Run(s, events[..k]).state, events[k]);
    } else {
      OffStaysOff(s.autoMount, events[..k], i);
      SettingIsLastWritten(s, events[..k]);
      OffMountsNothing(Run(s, events[..k]).state, events[k]);
    }
  }

  lemma TurnsOffQuietly(s: State, e: Event)
    requires e.Configure? && e.writes && !e.enabled
    ensures MountsNothing(Next(s, e).log)
  {
  }

  // Which volumes an event mounts automatically

  predicate IsUnmounted(v: Volume, name: Name) {
    v.name == name && !v.mounted
  }

  /** The scan shows the volume unmounted. */
  predicate ShownUnmounted(volumes: seq<Volume>, name: Name) {
    exists v | v in volumes :: IsUnmounted(v, name)
  }

  predicate ShownMounted(volumes: seq<Volume>, name: Name) {
    exists v | v in volumes :: v.name == name && v.mounted
  }

  lemma EligibleIs(volumes: seq<Volume>, attempted: seq<Name>, suppressed: seq<Name>, name: Name)
    ensures name in Eligible(volumes, attempted, suppressed) <==>
              ShownUnmounted(volumes, name) && name !in attempted && name !in suppressed
  {
    hide Eligible;
    EligibleMembers(volumes, attempted, suppressed, name);
    if ShownUnmounted(volumes, name) && name !in attempted && name !in suppressed {
      var v :| v in volumes && IsUnmounted(v, name);
      assert IsEligible(v, attempted, suppressed);
    }
    if EligibleIn(volumes, attempted, suppressed, name) {
      var v :| v in volumes && v.name == name && IsEligible(v, attempted, suppressed);
      assert IsUnmounted(v, name);
    }
  }

  lemma InAutoMounts(names: seq<Name>, name: Name, rest: seq<Entry>)
    requires forall k | 0 <= k < |rest| :: !rest[k].AutoMount?
    ensures AutoMount(name) in AutoMounts(names) + rest <==> name in names
  {
    var all := AutoMounts(names) + rest;
    if AutoMount(name) in all {
      var k :| 0 <= k < |all| && all[k] == AutoMount(name);
      assert k < |names|;
    }
    if name in names { AutoMountsIn(names, name, rest); }
  }

  lemma RefreshMounts(s: State, scans: Scans, name: Name)
    requires |s.attempted| <= SLOTS && ValidScan(scans.first)
    ensures AutoMount(name) in RefreshNext(s, scans).log <==>
              s.autoMount && ShownUnmounted(scans.first, name) && name !in s.attempted && name !in s.suppressed
  {
    hide Settle, Eligible, Recorded, Names, Distinct, ShownUnmounted, Tried;
    if s.autoMount {
      FirstRefresh(s, scans);
      var eligible := Eligible(scans.first, s.attempted, s.suppressed);
      InAutoMounts(eligible, name, [Pruned(Names(scans.seen))]);
      EligibleIs(scans.first, s.attempted, s.suppressed, name);
    }
  }

  /** A refresh, a block event or turning automatic mounting on mounts exactly the volumes that the first scan shows
      unmounted and that were neither unmounted by request nor tried before; a volume named by the block event, and every
      volume when the setting was off, counts as not tried. Nothing else mounts automatically. */
  lemma EventMounts(s: State, e: Event, name: Name)
    requires Distinct(s.attempted) && |s.attempted| <= SLOTS && ValidScans(e)
    ensures AutoMount(name) in Next(s, e).log <==>
              && name !in s.suppressed
              && match e
                 case Refresh(scans) => s.autoMount && ShownUnmounted(scans.first, name) && name !in s.attempted
                 case Uevent(device, scans) =>
                   s.autoMount && ShownUnmounted(scans.first, name) && (name !in s.attempted || device == Option.Some(name))
                 case Configure(enabled, writes, scans) =>
                   enabled && writes && ShownUnmounted(scans.first, name) && (name !in s.attempted || !s.autoMount)
                 case _ => false
  {
    hide RefreshNext, ShownUnmounted, Distinct, Remove, Settle, Names;
    match e
    case Refresh(scans) => RefreshScans(e); RefreshMounts(s, scans, name);
    case Uevent(device, scans) =>
      UeventScans(e);
      if device.Some? { RemoveMembers(s.attempted, device.value); }
      RefreshMounts(Forgot(s, device).state, scans, name);
      InThen(Forgot(s, device), RefreshNext(Forgot(s, device).state, scans), name);
    case Configure(enabled, writes, scans) =>
      if enabled && writes {
        ConfigureScans(e);
        RefreshMounts(Configured(s, true).state, scans, name);
        InThen(Configured(s, true), RefreshNext(Configured(s, true).state, scans), name);
      }
    case _ => RequestsAreQuiet(s, e);
  }

  lemma InThen(a: Step, b: Step, name: Name)
    requires MountsNothing(a.log)
    ensures AutoMount(name) in Then(a, b).log <==> AutoMount(name) in b.log
  {
  }

  lemma UeventScans(e: Event)
    requires e.Uevent? && ValidScans(e)
    ensures ValidScan(e.scans.first)
  {
  }

  lemma ConfigureScans(e: Event)
    requires e.Configure? && ValidScans(e)
    ensures ValidScan(e.scans.first)
  {
  }

  // What else is logged, and what is answered

  lemma FindIs(volumes: seq<Volume>, name: Name, v: Volume)
    requires Distinct(Names(volumes))
    ensures Find(volumes, name) == Option.Some(v) <==> v in volumes && v.name == name
  {
    hide Find;
    if v in volumes && v.name == name {
      var k :| 0 <= k < |volumes| && volumes[k] == v;
      assert Names(volumes)[k] == name;
      var found := Find(volumes, name).value;
      var j :| 0 <= j < |volumes| && volumes[j] == found;
      assert Names(volumes)[j] == name;
    }
  }

  /** The request can unmount it: mounted by this process under an absolute path. */
  predicate Unmountable(v: Volume) {
    v.mounted && v.managed && |v.mountPoint| > 0 && v.mountPoint[0] == '/'
  }

  /** A mount request succeeds exactly when the volume is there, was mounted or could be mounted, and the next scan shows it
      mounted; then that scan is cached. It gets past the mount step exactly when the volume was mounted or could be. */
  lemma MountAnswer(s: State, e: Event, v: Volume)
    requires e.Mount? && ValidScans(e) && v in e.before && v.name == e.name
    ensures var after := Next(s, e);
            && (MountPassed(e.name) in after.log <==> v.mounted || e.mounts)
            && (after.code == Ok <==> (v.mounted || e.mounts) && ShownMounted(e.after, e.name))
            && (after.code == MountFailed <==> after.code != Ok)
            && (after.code == Ok ==> after.state.cache == e.after)
  {
    hide Find, Settle, Names, Prune, Remove;
    FindIn(e.before, e.name, v);
    FindMounted(e.after, e.name);
    var looked := Look(s, e.before);
    if v.mounted || e.mounts { PassedAnswer(looked.state, e); }
    LookCache(looked.state, e.after);
  }

  lemma FindIn(volumes: seq<Volume>, name: Name, v: Volume)
    requires ValidScan(volumes) && v in volumes && v.name == name
    ensures Find(volumes, name) == Option.Some(v)
  {
    hide Find;
    FindIs(volumes, name, v);
  }

  lemma FindMounted(volumes: seq<Volume>, name: Name)
    requires ValidScan(volumes)
    ensures var found := Find(volumes, name);
            && (found.Some? && found.value.mounted <==> ShownMounted(volumes, name))
            && (found.Some? && !found.value.mounted <==> ShownUnmounted(volumes, name))
  {
    hide Find, Distinct, Names;
    var found := Find(volumes, name);
    if found.Some? {
      assert !found.value.mounted ==> IsUnmounted(found.value, name);
    }
    forall v | v in volumes && v.name == name
      ensures found == Option.Some(v)
    {
      FindIs(volumes, name, v);
    }
  }

  lemma LookCache(s: State, seen: seq<Volume>)
    ensures Look(s, seen).state.cache == seen
  {
  }

  lemma PassedAnswer(s: State, e: Event)
    requires e.Mount? && ValidScan(e.after)
    ensures var after := PassMount(s, e);
            && MountPassed(e.name) in after.log
            && (after.code == Ok <==> ShownMounted(e.after, e.name)) && (after.code == MountFailed <==> after.code != Ok)
            && (after.code == Ok ==> after.state.cache == e.after)
  {
    hide Find, Settle, Names, Remove, Distinct;
    FindMounted(e.after, e.name);
    var passed := Step(s.(suppressed := Remove(s.suppressed, e.name)), Ok, [MountPassed(e.name)]);
    LookCache(passed.state, e.after);
    assert PassMount(s, e).log[0] == MountPassed(e.name);
  }

  /** A volume that the first scan does not show is not found, and nothing is done about it. */
  lemma AbsentVolume(s: State, e: Event)
    requires (e.Mount? || e.Unmount?) && e.name !in Names(e.before)
    ensures Next(s, e).code == NotFound && Next(s, e).log == [Pruned(Names(e.before))] && Next(s, e).state.cache == e.before
  {
    hide Find, Prune;
  }

  /** An unmount request suppresses the volume exactly when it unmounted it: mounted by this process under an absolute
      path, and the command worked. It succeeds exactly when the volume was there, was not mounted or was so unmounted, and
      the next scan shows it unmounted; a volume that others mounted is not managed; all else is a failed unmount. */
  lemma UnmountAnswer(s: State, e: Event, v: Volume)
    requires e.Unmount? && ValidScans(e) && v in e.before && v.name == e.name
    ensures var after := Next(s, e);
            && (Unmounted(e.name) in after.log <==> Unmountable(v) && e.unmounts)
            && (after.code == Ok <==> (!v.mounted || (Unmountable(v) && e.unmounts)) && ShownUnmounted(e.after, e.name))
            && (after.code == NotManaged <==> v.mounted && !Unmountable(v))
            && (after.code == UnmountFailed <==> after.code != Ok && after.code != NotManaged)
            && (after.code == Ok ==> after.state.cache == e.after)
  {
    hide Find, Settle, Names, Prune, Add;
    FindIn(e.before, e.name, v);
    FindMounted(e.after, e.name);
    var looked := Look(s, e.before);
    DoneAnswer(looked.state, e, v.mounted);
    assert Unmounted(e.name) !in looked.log;
  }

  lemma DoneAnswer(s: State, e: Event, wasMounted: bool)
    requires e.Unmount? && ValidScan(e.after)
    ensures var after := PassUnmount(s, e, wasMounted);
            && (Unmounted(e.name) in after.log <==> wasMounted)
            && (after.code == Ok <==> ShownUnmounted(e.after, e.name)) && (after.code == UnmountFailed <==> after.code != Ok)
            && (after.code == Ok ==> after.state.cache == e.after)
  {
    hide Find, Settle, Names, Add, Distinct;
    FindMounted(e.after, e.name);
    var done := if wasMounted then Step(s.(suppressed := Add(s.suppressed, e.name)), Ok, [Unmounted(e.name)])
                else Step(s, Ok, []);
    LookCache(done.state, e.after);
    if wasMounted { assert PassUnmount(s, e, wasMounted).log[0] == Unmounted(e.name); }
  }

  /** A configuration request fails exactly when it cannot be written. */
  lemma ConfigureAnswer(s: State, e: Event)
    requires e.Configure?
    ensures Next(s, e).code == if e.writes then Ok else WriteFailed
    ensures !e.writes ==> Next(s, e) == Step(s.(configError := true), WriteFailed, [])
    ensures TurnedOn in Next(s, e).log <==> e.writes && e.enabled && !s.autoMount
  {
    hide Tried, Settle;
  }

  /** A block event is logged for exactly the device it names. */
  lemma UeventAnswer(s: State, e: Event, name: Name)
    requires e.Uevent?
    ensures BlockEvent(name) in Next(s, e).log <==> e.device == Option.Some(name)
    ensures Next(s, e).code == Ok
  {
    hide Tried, Settle, Remove;
    var refreshed := RefreshNext(Forgot(s, e.device).state, e.scans);
    assert BlockEvent(name) !in refreshed.log;
    if e.device == Option.Some(name) { assert Next(s, e).log[0] == BlockEvent(name); }
  }

  // The cache and the revisions

  /** The last scan that an event makes, if it makes one. */
  function LastScan(s: State, e: Event): Option<seq<Volume>> {
    match e
    case Refresh(scans) => Option.Some(if s.autoMount then scans.seen else scans.first)
    case Uevent(_, scans) => Option.Some(if s.autoMount then scans.seen else scans.first)
    case Configure(enabled, writes, scans) => if writes && enabled then Option.Some(scans.seen) else Option.None
    case Mount(name, before, mounts, after, again) =>
      if name !in Names(before) then Option.Some(before)
      else if !(ShownMounted(before, name) || mounts) || ShownMounted(after, name) then Option.Some(after)
      else Option.Some(again)
    case Unmount(name, before, unmounts, after) =>
      if name !in Names(before) || (exists v | v in before :: v.name == name && v.mounted && !Unmountable(v)) then Option.Some(before)
      else Option.Some(after)
  }

  lemma RefreshCache(s: State, scans: Scans)
    ensures RefreshNext(s, scans).state.cache == if s.autoMount then scans.seen else scans.first
  {
    hide Tried, Prune;
  }

  lemma MountCache(s: State, e: Event)
    requires e.Mount? && ValidScans(e)
    ensures Option.Some(Next(s, e).state.cache) == LastScan(s, e)
  {
    hide Find, Settle, Names, Distinct, ShownMounted, ShownUnmounted, Prune, Remove;
    FindMounted(e.before, e.name);
    FindMounted(e.after, e.name);
    SettleCache();
  }

  lemma SettleCache()
    ensures forall s: State, seen: seq<Volume> :: Settle(s, seen).cache == seen
  {
  }

  lemma UnmountCache(s: State, e: Event)
    requires e.Unmount? && ValidScans(e)
    ensures Option.Some(Next(s, e).state.cache) == LastScan(s, e)
  {
    hide Find, Settle, Names, Distinct, Prune, Add;
    SettleCache();
    var found := Find(e.before, e.name);
    forall v | v in e.before && v.name == e.name
      ensures found == Option.Some(v)
    {
      FindIn(e.before, e.name, v);
    }
  }

  /** After every event the cache is, in every field, the last scan that the event made. */
  lemma CacheIsLastScan(s: State, e: Event)
    requires ValidScans(e)
    ensures Next(s, e).state.cache == match LastScan(s, e) case Some(seen) => seen case None => s.cache
  {
    hide RefreshNext, Find, MountNext, UnmountNext, Settle, Remove;
    match e
    case Mount(_, _, _, _, _) => MountCache(s, e);
    case Unmount(_, _, _, _) => UnmountCache(s, e);
    case Refresh(scans) => RefreshCache(s, scans);
    case Uevent(device, scans) => RefreshCache(Forgot(s, device).state, scans);
    case Configure(enabled, writes, scans) => RefreshCache(Configured(s, enabled).state, scans);
  }

  /** Both revisions went up alike, and went up if the cache or the setting is another. */
  predicate Counted(a: State, b: State) {
    && a.storageRevision <= b.storageRevision && b.revision - a.revision == b.storageRevision - a.storageRevision
    && (a.storageRevision == b.storageRevision ==> a.cache == b.cache && a.autoMount == b.autoMount)
  }

  lemma SettleCounted(s: State, seen: seq<Volume>)
    ensures Counted(s, Settle(s, seen))
  {
  }

  lemma RefreshCounted(s: State, scans: Scans)
    ensures Counted(s, RefreshNext(s, scans).state)
  {
    hide Tried, Prune;
  }

  lemma MountCounted(s: State, e: Event)
    requires e.Mount?
    ensures Counted(s, Next(s, e).state)
  {
    hide Find, Settle, Remove, Names;
    var looked := Settle(s, e.before);
    SettleCounted(s, e.before);
    SettleCounted(looked, e.after);
    var passed := looked.(suppressed := Remove(looked.suppressed, e.name));
    SettleCounted(passed, e.after);
    SettleCounted(Settle(passed, e.after), e.again);
  }

  lemma UnmountCounted(s: State, e: Event)
    requires e.Unmount?
    ensures Counted(s, Next(s, e).state)
  {
    hide Find, Settle, Add, Names;
    var looked := Settle(s, e.before);
    SettleCounted(s, e.before);
    SettleCounted(looked, e.after);
    SettleCounted(looked.(suppressed := Add(looked.suppressed, e.name)), e.after);
  }

  lemma StepCounted(s: State, e: Event)
    ensures Counted(s, Next(s, e).state)
  {
    hide RefreshNext, MountNext, UnmountNext, Remove;
    match e
    case Mount(_, _, _, _, _) => MountCounted(s, e);
    case Unmount(_, _, _, _) => UnmountCounted(s, e);
    case Refresh(scans) => RefreshCounted(s, scans);
    case Uevent(device, scans) => RefreshCounted(Forgot(s, device).state, scans);
    case Configure(enabled, writes, scans) => RefreshCounted(Configured(s, enabled).state, scans);
  }

  /** In every run, a client that finds the revision unchanged has missed nothing: from any point to the end, equal
      revisions mean the same volumes in every field and the same setting; revisions never go back. */
  lemma {:induction false} NoSilentChange(s: State, events: seq<Event>, k: nat)
    requires k <= |events|
    ensures Counted(Run(s, events[..k]).state, Run(s, events).state)
    decreases |events|
  {
    hide Next;
    if k == |events| {
      assert events[..k] == events;
    } else {
      var n := |events| - 1;
      assert events[..n][..k] == events[..k];
      NoSilentChange(s, events[..n], k);
      StepCounted(Run(s, events[..n]).state, events[n]);
    }
  }

  /** One refresh or block event counts once if its last scan is new, and not at all otherwise; so does a configuration
      request, and once more if it changes the setting or clears an error. */
  lemma RefreshesCountChanges(s: State, e: Event)
    requires e.Refresh? || e.Uevent? || e.Configure?
    ensures var after := Next(s, e).state;
            after.storageRevision == s.storageRevision + (if after.cache != s.cache then 1 else 0)
              + if e.Configure? && e.writes && (s.autoMount != e.enabled || s.configError) then 1 else 0
  {
    hide Tried, Prune, Remove;
  }

  /** A mount or unmount request counts nothing when all that it sees is what was cached. */
  lemma RequestsCountChanges(s: State, e: Event)
    requires (e.Mount? && e.before == e.after == e.again == s.cache) || (e.Unmount? && e.before == e.after == s.cache)
    ensures Next(s, e).state.storageRevision == s.storageRevision && Next(s, e).state.revision == s.revision
  {
    hide Find, Prune, Remove, Add, Names;
  }

  /** A list remembers a new name unless its 32 slots are taken; it forgets and keeps names, and nothing else. */
  lemma ListIs(names: seq<Name>, name: Name, seen: seq<Name>)
    requires Distinct(names)
    ensures forall x :: x in Add(names, name) <==> x in names || (x == name && |names| < 32)
    ensures forall x :: x in Remove(names, name) <==> x in names && x != name
    ensures forall x :: x in Prune(names, seen) <==> x in names && x in seen
    ensures Distinct(Add(names, name)) && Distinct(Remove(names, name)) && Distinct(Prune(names, seen))
  {
    hide Remove, Prune;
    RemoveMembers(names, name);
    PruneMembers(names, seen);
    PruneDistinct(names, seen);
  }
}
