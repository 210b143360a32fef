/** Automatic mounting: what one refresh, mount, unmount or configuration change does. Scans and the results of
    commands arrive as inputs; the log records what was tried and what each refresh ended up seeing. */
module Storage {

  const SLOTS := 32

  type Name = string

  /** `details` stands for the scanned fields that no decision reads. */
  datatype Volume = Volume(name: Name, mounted: bool, managed: bool, mountPoint: string, details: string)

  datatype Option<+T> = None | Some(value: T)

  datatype Entry =
    | AutoMount(name: Name)
    | Unmounted(name: Name)
    | MountPassed(name: Name)
    | Pruned(names: seq<Name>)
    | BlockEvent(name: Name)
    | TurnedOn

  datatype State = State(attempted: seq<Name>, suppressed: seq<Name>, cache: seq<Volume>, autoMount: bool,
                         configError: bool, storageRevision: nat, revision: nat)

  datatype Code = Ok | NotFound | MountFailed | UnmountFailed | NotManaged | WriteFailed

  datatype Step = Step(state: State, code: Code, log: seq<Entry>)

  /** `auto` is the first scan of a refresh that applies the policy; `seen` is its last scan. */
  datatype Scans = Scans(first: seq<Volume>, seen: seq<Volume>)

  datatype Event =
    | Refresh(scans: Scans)
    | Mount(name: Name, before: seq<Volume>, mounts: bool, after: seq<Volume>, again: seq<Volume>)
    | Unmount(name: Name, before: seq<Volume>, unmounts: bool, after: seq<Volume>)
    | Configure(enabled: bool, writes: bool, scans: Scans)
    | Uevent(device: Option<Name>, scans: Scans)

  // The name lists

  predicate Distinct(s: seq<Name>) {
    forall i, j | 0 <= i < j < |s| :: s[i] != s[j]
  }

  function Add(s: seq<Name>, name: Name): seq<Name> {
    if |s| >= SLOTS || name in s then s else s + [name]
  }

  function Remove(s: seq<Name>, name: Name): seq<Name>
    decreases |s|
  {
    if s == [] then []
    else
      var n := |s| - 1;
      if s[n] == name && name !in s[..n] then s[..n] else Remove(s[..n], name) + [s[n]]
  }

  function Prune(s: seq<Name>, seen: seq<Name>): seq<Name>
    decreases |s|
  {
    if s == [] then []
    else
      var n := |s| - 1;
      Prune(s[..n], seen) + if s[n] in seen then [s[n]] else []
  }

  function Names(volumes: seq<Volume>): (r: seq<Name>)
    ensures |r| == |volumes| && forall i | 0 <= i < |r| :: r[i] == volumes[i].name
  {
    seq(|volumes|, i requires 0 <= i < |volumes| => volumes[i].name)
  }

  // The policy

  /** The attempted list after the policy went through the scanned volumes, and the names it tried to mount. */
  function Tried(volumes: seq<Volume>, attempted: seq<Name>, suppressed: seq<Name>): (seq<Name>, seq<Name>)
    decreases |volumes|
  {
    if volumes == [] then (attempted, [])
    else
      var n := |volumes| - 1;
      var (now, tried) := Tried(volumes[..n], attempted, suppressed);
      var v := volumes[n];
      if !v.mounted && v.name !in now && v.name !in suppressed then (Add(now, v.name), tried + [v.name]) else (now, tried)
  }

  function AutoMounts(names: seq<Name>): (r: seq<Entry>)
    ensures |r| == |names| && forall i | 0 <= i < |r| :: r[i] == AutoMount(names[i])
  {
    seq(|names|, i requires 0 <= i < |names| => AutoMount(names[i]))
  }

  /** The end of a refresh, once the last scan is in. */
  function Settle(s: State, seen: seq<Volume>): State {
    var names := Names(seen);
    var changed := s.cache != seen;
    s.(suppressed := Prune(s.suppressed, names), attempted := Prune(s.attempted, names), cache := seen,
       storageRevision := s.storageRevision + (if changed then 1 else 0), revision := s.revision + (if changed then 1 else 0))
  }

  /** `storage_refresh(0)` */
  function Look(s: State, seen: seq<Volume>): Step {
    Step(Settle(s, seen), Ok, [Pruned(Names(seen))])
  }

  /** `storage_refresh(1)`; without automatic mounting only the first scan is made. */
  function RefreshNext(s: State, scans: Scans): Step {
    if !s.autoMount then Look(s, scans.first)
    else
      var (attempted, tried) := Tried(scans.first, s.attempted, s.suppressed);
      Step(Settle(s.(attempted := attempted), scans.seen), Ok, AutoMounts(tried) + [Pruned(Names(scans.seen))])
  }

  function Find(volumes: seq<Volume>, name: Name): (r: Option<Volume>)
    ensures r.Some? ==> r.value in volumes && r.value.name == name
    ensures r.None? <==> name !in Names(volumes)
    decreases |volumes|
  {
    if volumes == [] then None
    else if volumes[0].name == name then Some(volumes[0])
    else
      var r := Find(volumes[1..], name);
      assert Names(volumes) == [volumes[0].name] + Names(volumes[1..]);
      r
  }

  function Then(a: Step, b: Step): Step {
    Step(b.state, b.code, a.log + b.log)
  }

  /** A mount request past the mount step. */
  function PassMount(s: State, e: Event): Step
    requires e.Mount?
  {
    var passed := Step(s.(suppressed := Remove(s.suppressed, e.name)), Ok, [MountPassed(e.name)]);
    var observed := Then(passed, Look(passed.state, e.after));
    var volume := Find(e.after, e.name);
    if volume.Some? && volume.value.mounted then observed
    else Then(observed, Look(observed.state, e.again).(code := MountFailed))
  }

  function MountNext(s: State, e: Event): Step
    requires e.Mount?
  {
    var looked := Look(s, e.before);
    var found := Find(e.before, e.name);
    if found.None? then looked.(code := NotFound)
    else if !found.value.mounted && !e.mounts then Then(looked, Look(looked.state, e.after).(code := MountFailed))
    else Then(looked, PassMount(looked.state, e))
  }

  /** An unmount request past the unmount step, which did nothing for a volume that was not mounted. */
  function PassUnmount(s: State, e: Event, wasMounted: bool): Step
    requires e.Unmount?
  {
    var done := if wasMounted then Step(s.(suppressed := Add(s.suppressed, e.name)), Ok, [Unmounted(e.name)])
                else Step(s, Ok, []);
    var observed := Then(done, Look(done.state, e.after));
    var after := Find(e.after, e.name);
    if after.None? || after.value.mounted then observed.(code := UnmountFailed) else observed
  }

  function UnmountNext(s: State, e: Event): Step
    requires e.Unmount?
  {
    var looked := Look(s, e.before);
    var found := Find(e.before, e.name);
    if found.None? then looked.(code := NotFound)
    else
      var volume := found.value;
      if volume.mounted && (!volume.managed || volume.mountPoint == "" || volume.mountPoint[0] != '/') then
        looked.(code := NotManaged)
      else if volume.mounted && !e.unmounts then Then(looked, Look(looked.state, e.after).(code := UnmountFailed))
      else Then(looked, PassUnmount(looked.state, e, volume.mounted))
  }

  /** A configuration change before any refresh that follows it. */
  function Configured(s: State, enabled: bool): Step {
    var turned := enabled && s.autoMount != enabled;
    var changed := s.autoMount != enabled || s.configError;
    Step(s.(attempted := if turned then [] else s.attempted, autoMount := enabled, configError := false,
            storageRevision := s.storageRevision + (if changed then 1 else 0),
            revision := s.revision + (if changed then 1 else 0)),
         Ok, if turned then [TurnedOn] else [])
  }

  function ConfigureNext(s: State, e: Event): Step
    requires e.Configure?
  {
    if !e.writes then Step(s.(configError := true), WriteFailed, [])
    else if e.enabled then Then(Configured(s, true), RefreshNext(Configured(s, true).state, e.scans))
    else Configured(s, false)
  }

  /** A block event may name the device that changed; that device may then be tried again. */
  function Forgot(s: State, device: Option<Name>): Step {
    match device
    case Some(name) => Step(s.(attempted := Remove(s.attempted, name)), Ok, [BlockEvent(name)])
    case None => Step(s, Ok, [])
  }

  function UeventNext(s: State, e: Event): Step
    requires e.Uevent?
  {
    Then(Forgot(s, e.device), RefreshNext(Forgot(s, e.device).state, e.scans))
  }

  function Next(s: State, e: Event): Step {
    match e
    case Refresh(scans) => RefreshNext(s, scans)
    case Mount(_, _, _, _, _) => MountNext(s, e)
    case Unmount(_, _, _, _) => UnmountNext(s, e)
    case Configure(_, _, _) => ConfigureNext(s, e)
    case Uevent(_, _) => UeventNext(s, e)
  }

  /** A new process: nothing attempted, suppressed or cached; the configuration may say anything. */
  predicate Fresh(s: State) {
    s.attempted == [] && s.suppressed == [] && s.cache == []
  }

  function Run(s: State, events: seq<Event>): Step
    decreases |events|
  {
    if events == [] then Step(s, Ok, [])
    else
      var before := Run(s, events[..|events| - 1]);
      Then(before, Next(before.state, events[|events| - 1]))
  }

  /** A scan lists at most 32 volumes and no name twice. */
  predicate ValidScan(volumes: seq<Volume>) {
    |volumes| <= SLOTS && Distinct(Names(volumes))
  }

  predicate ValidScans(e: Event) {
    match e
    case Refresh(scans) => ValidScan(scans.first) && ValidScan(scans.seen)
    case Mount(_, before, _, after, again) => ValidScan(before) && ValidScan(after) && ValidScan(again)
    case Unmount(_, before, _, after) => ValidScan(before) && ValidScan(after)
    case Configure(_, _, scans) => ValidScan(scans.first) && ValidScan(scans.seen)
    case Uevent(_, scans) => ValidScan(scans.first) && ValidScan(scans.seen)
  }
}
