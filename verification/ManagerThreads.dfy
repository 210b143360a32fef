/** Every interleaving of the manager's requests, one lock-protected statement at a time. */
module ManagerThreads {
  import opened ManagerJournal

  type Tid = nat

  type Pins = map<string, string>

  datatype Selection = Selection(domain: string, component: Option<string>, expected: Option<nat>)

  datatype Watcher = Watcher(after: int, domains: set<string>)

  /** A selection that was saved: the revision its caller expected, and the revision it produced. */
  datatype Commit = Commit(expected: Option<nat>, revision: nat)

  /** Where a thread stands. */
  datatype Pc =
    | Idle
    | SelectStart(request: Selection)
    | SelectProbing(request: Selection)
    | SelectWaiting(request: Selection)
    | SelectHeld(request: Selection)
    | Saving(request: Selection, replaced: Option<string>)
    | RollingBack(request: Selection, replaced: Option<string>)
    | RecordWaiting(kind: string, domain: string)
    | Bumping(event: Event, selecting: Option<Selection>)
    | Pushing(event: Event)
    | Notifying
    | StopWaiting
    | Stopping
    | WatchWaiting(watcher: Watcher)
    | WatchTesting(watcher: Watcher)
    | Blocked(watcher: Watcher, notified: bool)
    | Releasing

  /** What the lock protects, with `disk`, `history` and `commits` recording what was ever saved and appended. */
  datatype Shared = Shared(revision: nat, journal: seq<Event>, selections: Pins, stop: bool, lock: Option<Tid>,
                           disk: Pins, history: seq<Event>, commits: seq<Commit>)

  datatype System = System(shared: Shared, threads: map<Tid, Pc>)

  predicate Critical(pc: Pc) {
    pc.SelectHeld? || pc.Saving? || pc.RollingBack? || pc.Bumping? || pc.Pushing? || pc.Notifying? ||
    pc.Stopping? || pc.WatchTesting? || pc.Releasing?
  }

  function Lookup(m: Pins, key: string): Option<string> {
    if key in m then Some(m[key]) else None
  }

  function Store(m: Pins, key: string, value: Option<string>): Pins {
    if value.Some? then m[key := value.value] else m - {key}
  }

  function Push(journal: seq<Event>, e: Event): seq<Event> {
    if |journal| == CAPACITY then journal[1..] + [e] else journal + [e]
  }

  /** What makes `watch` stop waiting, other than its deadline. */
  ghost predicate Ready(s: Shared, w: Watcher) {
    var oldest := if s.journal != [] then s.journal[0].revision else s.revision + 1;
    s.stop || w.after < oldest - 1 || exists i | 0 <= i < |s.journal| :: Matches(s.journal[i], w.after, w.domains)
  }

  function Woken(threads: map<Tid, Pc>): map<Tid, Pc> {
    map t | t in threads :: if threads[t].Blocked? then threads[t].(notified := true) else threads[t]
  }

  function SelectionEvent(request: Selection): Event {
    if request.component.Some?
    then Event(0, "provider-selected", request.domain, None, request.component, Some("manual"))
    else Event(0, "provider-reset", request.domain, None, None, Some("automatic"))
  }

  predicate IsSelectionEvent(e: Event) {
    e.kind == "provider-selected" || e.kind == "provider-reset"
  }

  /** The compare half of the compare-and-swap, and the test for a choice that is already in force. */
  predicate Refused(s: Shared, r: Selection) {
    (r.expected.Some? && r.expected.value != s.revision) || Lookup(s.selections, r.domain) == r.component
  }

  predicate Takes(t: Tid, s: Shared, s': Shared) {
    s.lock == None && s' == s.(lock := Some(t))
  }

  /** One statement of thread `t`. */
  ghost predicate Statement(t: Tid, s: Shared, pc: Pc, s': Shared, pc': Pc) {
    match pc
    case Idle => s' == s && (pc'.SelectStart? || pc'.RecordWaiting? || pc'.StopWaiting? || pc'.WatchWaiting?)
                 && (pc'.RecordWaiting? ==> pc'.kind !in {"provider-selected", "provider-reset"})
    case SelectStart(r) => s.lock == None && s' == s && pc' == if Refused(s, r) then Idle else SelectProbing(r)
    case SelectProbing(r) => s' == s && (pc' == Idle || pc' == SelectWaiting(r))
    case SelectWaiting(r) => Takes(t, s, s') && pc' == SelectHeld(r)
    case SelectHeld(r) =>
      if Refused(s, r) then s' == s && pc' == Releasing
      else s' == s.(selections := Store(s.selections, r.domain, r.component))
           && pc' == Saving(r, Lookup(s.selections, r.domain))
    case Saving(r, replaced) =>
      || (s' == s.(disk := s.selections) && pc' == Bumping(SelectionEvent(r), Some(r)))
      || (s' == s && pc' == RollingBack(r, replaced))
    case RollingBack(r, replaced) => s' == s.(selections := Store(s.selections, r.domain, replaced)) && pc' == Releasing
    case RecordWaiting(kind, domain) => Takes(t, s, s') && pc' == Bumping(Event(0, kind, domain, None, None, None), None)
    case Bumping(e, selecting) =>
      && s' == s.(revision := s.revision + 1,
                  commits := if selecting.Some? then s.commits + [Commit(selecting.value.expected, s.revision + 1)] else s.commits)
      && pc' == Pushing(e.(revision := s.revision + 1))
    case Pushing(e) => s' == s.(journal := Push(s.journal, e), history := s.history + [e]) && pc' == Notifying
    case Notifying => s' == s && pc' == Releasing
    case StopWaiting => Takes(t, s, s') && pc' == Stopping
    case Stopping => s' == s.(stop := true) && pc' == Notifying
    case WatchWaiting(w) => Takes(t, s, s') && pc' == WatchTesting(w)
    case WatchTesting(w) =>
      || (s' == s && pc' == Releasing)
      || (!Ready(s, w) && s' == s.(lock := None) && pc' == Blocked(w, false))
    case Blocked(w, _) => s' == s && pc' == WatchWaiting(w)
    case Releasing => s' == s.(lock := None) && pc' == Idle
  }

  ghost predicate Init(S: System) {
    && S.shared == Shared(0, [], S.shared.disk, false, None, S.shared.disk, [], [])
    && forall t | t in S.threads :: S.threads[t] == Idle
  }

  ghost predicate NextBy(S: System, S': System, t: Tid) {
    && t in S.threads && t in S'.threads
    && Statement(t, S.shared, S.threads[t], S'.shared, S'.threads[t])
    && S'.threads == (if S.threads[t].Notifying? then Woken(S.threads) else S.threads)[t := S'.threads[t]]
  }

  ghost predicate Succeeds(S: System, S': System) {
    exists t :: NextBy(S, S', t)
  }

  ghost predicate Execution(trace: seq<System>) {
    && trace != [] && Init(trace[0])
    && forall i | 0 <= i < |trace| - 1 :: Succeeds(trace[i], trace[i + 1])
  }

  // The invariant, by topic

  function Holder(S: System): Pc {
    if S.shared.lock.Some? && S.shared.lock.value in S.threads then S.threads[S.shared.lock.value] else Idle
  }

  ghost predicate Exclusive(S: System) {
    && (forall t | t in S.threads :: Critical(S.threads[t]) <==> S.shared.lock == Some(t))
    && (S.shared.lock.Some? ==> S.shared.lock.value in S.threads)
  }

  predicate JournalInv(s: Shared, holder: Pc) {
    && (forall i | 0 <= i < |s.history| :: s.history[i].revision == i + 1)
    && s.journal == Kept(s.history)
    && s.revision == |s.history| + (if holder.Pushing? then 1 else 0)
    && (holder.Pushing? ==> holder.event.revision == s.revision)
  }

  /** The in-memory choices are the saved ones, except between a change and its save or rollback. */
  predicate PinsInv(s: Shared, holder: Pc) {
    if holder.Saving? || holder.RollingBack? then
      && holder.replaced == Lookup(s.disk, holder.request.domain)
      && s.selections == Store(s.disk, holder.request.domain, holder.request.component)
    else s.selections == s.disk
  }

  ghost predicate Committed(s: Shared, revision: nat) {
    exists k :: 0 <= k < |s.commits| && s.commits[k].revision == revision
  }

  predicate InOrder(commits: seq<Commit>, revision: nat) {
    && (forall k | 0 <= k < |commits| ::
          1 <= commits[k].revision <= revision
          && (commits[k].expected.Some? ==> commits[k].revision == commits[k].expected.value + 1))
    && (forall j, k | 0 <= j < k < |commits| :: commits[j].revision < commits[k].revision)
  }

  predicate CommitsInv(s: Shared, holder: Pc) {
    && InOrder(s.commits, s.revision)
    && (holder.Saving? && holder.request.expected.Some? ==> holder.request.expected.value == s.revision)
    && (holder.Bumping? && holder.selecting.Some? && holder.selecting.value.expected.Some? ==>
          holder.selecting.value.expected.value == s.revision)
  }

  /** Selection events in the history are exactly the commits. */
  ghost predicate EventsInv(s: Shared, holder: Pc) {
    && (forall i | 0 <= i < |s.history| :: IsSelectionEvent(s.history[i]) <==> Committed(s, i + 1))
    && (holder.Bumping? ==> (IsSelectionEvent(holder.event) <==> holder.selecting.Some?))
    && (holder.Pushing? ==> (IsSelectionEvent(holder.event) <==> Committed(s, s.revision)))
  }

  ghost predicate Asleep(S: System, t: Tid) {
    t in S.threads && S.threads[t].Blocked? && !S.threads[t].notified
  }

  /** Outside the two statements around a notification, nobody sleeps through what it waits for. */
  ghost predicate WakeInv(S: System) {
    !Holder(S).Pushing? && !Holder(S).Notifying? ==>
      forall t | Asleep(S, t) :: !Ready(S.shared, S.threads[t].watcher)
  }

  ghost predicate RecordsInv(S: System) {
    forall t | t in S.threads && S.threads[t].RecordWaiting? ::
      S.threads[t].kind !in {"provider-selected", "provider-reset"}
  }

  ghost predicate Inv(S: System) {
    && Exclusive(S) && RecordsInv(S) && WakeInv(S)
    && JournalInv(S.shared, Holder(S)) && PinsInv(S.shared, Holder(S))
    && CommitsInv(S.shared, Holder(S)) && EventsInv(S.shared, Holder(S))
  }

  // Each topic is kept by every statement.

  lemma OthersStay(S: System, S': System, t: Tid, u: Tid)
    requires NextBy(S, S', t) && u != t
    ensures u in S.threads <==> u in S'.threads
    ensures u in S.threads ==> Critical(S'.threads[u]) == Critical(S.threads[u])
  {
    hide Statement;
  }

  lemma LockMoves(S: System, S': System, t: Tid)
    requires NextBy(S, S', t) && Exclusive(S)
    ensures Critical(S.threads[t]) ==> S.shared.lock == Some(t)
    ensures S'.shared.lock == if Critical(S'.threads[t]) then Some(t)
                              else if Critical(S.threads[t]) then None else S.shared.lock
    ensures Critical(S'.threads[t]) && !Critical(S.threads[t]) ==> S.shared.lock == None
  {
    hide Refused, Ready, Store, Push, Lookup, SelectionEvent, Woken;
  }

  lemma ExclusiveStep(S: System, S': System, t: Tid)
    requires Exclusive(S) && NextBy(S, S', t)
    ensures Exclusive(S')
    ensures Critical(S.threads[t]) ==> Holder(S) == S.threads[t]
    ensures Critical(S'.threads[t]) ==> Holder(S') == S'.threads[t]
    ensures Critical(S.threads[t]) && !Critical(S'.threads[t]) ==> Holder(S') == Idle
    ensures !Critical(S.threads[t]) && Critical(S'.threads[t]) ==> Holder(S) == Idle
    ensures !Critical(S.threads[t]) && !Critical(S'.threads[t]) ==> Holder(S') == Holder(S)
  {
    hide Statement, Critical;
    LockMoves(S, S', t);
    forall u | u != t
      ensures u in S.threads <==> u in S'.threads
      ensures u in S.threads ==> Critical(S'.threads[u]) == Critical(S.threads[u])
    {
      OthersStay(S, S', t, u);
    }
    if !Critical(S.threads[t]) && !Critical(S'.threads[t]) && S.shared.lock.Some? {
      HolderStays(S, S', t);
    }
  }

  lemma HolderStays(S: System, S': System, t: Tid)
    requires NextBy(S, S', t) && Exclusive(S) && !Critical(S.threads[t]) && S.shared.lock.Some?
    ensures S.shared.lock.value in S'.threads && S'.threads[S.shared.lock.value] == Holder(S)
  {
    hide Statement;
  }

  lemma RecordsStep(S: System, S': System, t: Tid)
    requires RecordsInv(S) && NextBy(S, S', t)
    ensures RecordsInv(S')
  {
    hide Refused, Ready, Store, Push;
  }

  /** How the holder relates before and after, for the topics that only look at it. */
  ghost predicate HolderStep(t: Tid, s: Shared, pc: Pc, h: Pc, s': Shared, pc': Pc, h': Pc) {
    && Statement(t, s, pc, s', pc')
    && (Critical(pc) ==> h == pc) && (Critical(pc') ==> h' == pc')
    && (Critical(pc) && !Critical(pc') ==> h' == Idle)
    && (!Critical(pc) && Critical(pc') ==> h == Idle)
    && (!Critical(pc) && !Critical(pc') ==> h' == h)
    && (pc.RecordWaiting? ==> pc.kind !in {"provider-selected", "provider-reset"})
  }

  lemma KeptGrows(history: seq<Event>, e: Event)
    ensures Kept(history + [e]) == Push(Kept(history), e)
  {
  }

  lemma JournalStep(t: Tid, s: Shared, pc: Pc, h: Pc, s': Shared, pc': Pc, h': Pc)
    requires HolderStep(t, s, pc, h, s', pc', h') && JournalInv(s, h)
    ensures JournalInv(s', h')
  {
    hide Refused, Ready, Store, Push, Kept;
    if pc.Pushing? { KeptGrows(s.history, pc.event); }
  }

  lemma StoreBack(m: Pins, key: string, value: Option<string>)
    ensures Store(Store(m, key, value), key, Lookup(m, key)) == m
  {
  }

  lemma PinsStep(t: Tid, s: Shared, pc: Pc, h: Pc, s': Shared, pc': Pc, h': Pc)
    requires HolderStep(t, s, pc, h, s', pc', h') && PinsInv(s, h)
    ensures PinsInv(s', h')
  {
    hide Refused, Ready, Store, Push, Lookup, SelectionEvent;
    if pc.RollingBack? { StoreBack(s.disk, pc.request.domain, pc.request.component); }
  }

  lemma OneMoreCommit(commits: seq<Commit>, revision: nat, selecting: Option<Selection>)
    requires InOrder(commits, revision)
    requires selecting.Some? && selecting.value.expected.Some? ==> selecting.value.expected.value == revision
    ensures InOrder(if selecting.Some? then commits + [Commit(selecting.value.expected, revision + 1)] else commits, revision + 1)
  {
  }

  lemma CommitsStep(t: Tid, s: Shared, pc: Pc, h: Pc, s': Shared, pc': Pc, h': Pc)
    requires HolderStep(t, s, pc, h, s', pc', h') && CommitsInv(s, h)
    ensures CommitsInv(s', h')
  {
    hide Ready, Store, Push, Lookup, InOrder, SelectionEvent;
    if pc.Bumping? { OneMoreCommit(s.commits, s.revision, pc.selecting); }
  }

  lemma EventsBumped(t: Tid, s: Shared, pc: Pc, h: Pc, s': Shared, pc': Pc, h': Pc)
    requires HolderStep(t, s, pc, h, s', pc', h') && EventsInv(s, h) && JournalInv(s, h) && CommitsInv(s, h)
    requires pc.Bumping?
    ensures EventsInv(s', h')
  {
    hide Refused, Ready, Store, Push, Lookup, Kept, Committed, CommitsInv, SelectionEvent;
    BumpedCommits(s, s', pc);
  }

  lemma EventsPushed(t: Tid, s: Shared, pc: Pc, h: Pc, s': Shared, pc': Pc, h': Pc)
    requires HolderStep(t, s, pc, h, s', pc', h') && EventsInv(s, h) && JournalInv(s, h)
    requires pc.Pushing?
    ensures EventsInv(s', h')
  {
    hide Refused, Ready, Store, Push, Lookup, Kept, SelectionEvent;
    assert forall r: nat :: Committed(s', r) == Committed(s, r);
  }

  lemma EventsKept(t: Tid, s: Shared, pc: Pc, h: Pc, s': Shared, pc': Pc, h': Pc)
    requires HolderStep(t, s, pc, h, s', pc', h') && EventsInv(s, h)
    requires !pc.Bumping? && !pc.Pushing?
    ensures EventsInv(s', h')
  {
    hide Refused, Ready, Store, Push, Lookup, Kept;
    assert s'.commits == s.commits && s'.history == s.history;
    assert forall r: nat :: Committed(s', r) == Committed(s, r);
  }

  lemma EventsStep(t: Tid, s: Shared, pc: Pc, h: Pc, s': Shared, pc': Pc, h': Pc)
    requires HolderStep(t, s, pc, h, s', pc', h') && EventsInv(s, h) && JournalInv(s, h) && CommitsInv(s, h)
    ensures EventsInv(s', h')
  {
    hide HolderStep, EventsInv, JournalInv, CommitsInv;
    if pc.Bumping? { EventsBumped(t, s, pc, h, s', pc', h'); }
    else if pc.Pushing? { EventsPushed(t, s, pc, h, s', pc', h'); }
    else { EventsKept(t, s, pc, h, s', pc', h'); }
  }

  lemma BumpedCommits(s: Shared, s': Shared, pc: Pc)
    requires pc.Bumping? && CommitsInv(s, pc)
    requires s'.revision == s.revision + 1
    requires s'.commits == if pc.selecting.Some? then s.commits + [Commit(pc.selecting.value.expected, s.revision + 1)] else s.commits
    ensures forall r: nat | r <= s.revision :: Committed(s', r) == Committed(s, r)
    ensures Committed(s', s'.revision) == pc.selecting.Some?
  {
    if pc.selecting.Some? {
      assert s'.commits[|s.commits|].revision == s'.revision;
      forall r: nat | r <= s.revision
        ensures Committed(s', r) == Committed(s, r)
      {
        if Committed(s, r) {
          var k :| 0 <= k < |s.commits| && s.commits[k].revision == r;
          assert s'.commits[k].revision == r;
        }
      }
    } else {
      assert forall r: nat :: Committed(s', r) == Committed(s, r);
    }
  }

  lemma WakeStep(S: System, S': System, t: Tid)
    requires WakeInv(S) && Exclusive(S) && NextBy(S, S', t)
    ensures WakeInv(S')
  {
    hide Refused, Store, Lookup, Matches;
    ExclusiveStep(S, S', t);
    if !Holder(S').Pushing? && !Holder(S').Notifying? {
      forall u | Asleep(S', u)
        ensures !Ready(S'.shared, S'.threads[u].watcher)
      {
        if u != t { assert Asleep(S, u) && S'.threads[u] == S.threads[u]; }
      }
    }
  }

  lemma InvStep(S: System, S': System, t: Tid)
    requires Inv(S) && NextBy(S, S', t)
    ensures Inv(S')
  {
    hide Statement, Exclusive, RecordsInv, WakeInv, JournalInv, PinsInv, CommitsInv, EventsInv, Holder;
    ExclusiveStep(S, S', t);
    RecordsStep(S, S', t);
    WakeStep(S, S', t);
    var s, s', pc, pc', h, h' := S.shared, S'.shared, S.threads[t], S'.threads[t], Holder(S), Holder(S');
    assert pc.RecordWaiting? ==> pc.kind !in {"provider-selected", "provider-reset"} by { RecordsAt(S, t); }
    assert HolderStep(t, s, pc, h, s', pc', h');
    JournalStep(t, s, pc, h, s', pc', h');
    PinsStep(t, s, pc, h, s', pc', h');
    CommitsStep(t, s, pc, h, s', pc', h');
    EventsStep(t, s, pc, h, s', pc', h');
  }

  lemma RecordsAt(S: System, t: Tid)
    requires RecordsInv(S) && t in S.threads
    ensures S.threads[t].RecordWaiting? ==> S.threads[t].kind !in {"provider-selected", "provider-reset"}
  {
  }

  lemma {:induction false} InvAlways(trace: seq<System>, i: nat)
    requires Execution(trace) && i < |trace|
    ensures Inv(trace[i])
    decreases i
  {
    hide NextBy, Inv;
    if i == 0 {
      InvInitially(trace[0]);
    } else {
      InvAlways(trace, i - 1);
      assert Succeeds(trace[i - 1], trace[i - 1 + 1]);
      var t :| NextBy(trace[i - 1], trace[i], t);
      InvStep(trace[i - 1], trace[i], t);
    }
  }

  lemma InvInitially(S: System)
    requires Init(S)
    ensures Inv(S)
  {
  }

  // What that gives in every state of every execution

  /** No lost wakeups: whenever the lock is free, a watcher that is blocked and not notified has no newer
      matching event, no resync due and no stop requested. */
  lemma NoLostWakeups(trace: seq<System>, i: nat, t: Tid)
    requires Execution(trace) && i < |trace| && trace[i].shared.lock == None && Asleep(trace[i], t)
    ensures !Ready(trace[i].shared, trace[i].threads[t].watcher)
  {
    hide Execution, Ready;
    InvAlways(trace, i);
  }

  /** The same with the waiting condition spelled out: the journal holds no event newer than the watcher's cursor that
      belongs to all domains or to one it named, or any when it named none; nothing newer was evicted; nobody stopped. */
  lemma SleepersHaveNothingToDo(trace: seq<System>, i: nat, t: Tid)
    requires Execution(trace) && i < |trace| && trace[i].shared.lock == None && Asleep(trace[i], t)
    ensures var s, w := trace[i].shared, trace[i].threads[t].watcher;
            && !s.stop
            && (forall e | e in s.journal && e.revision > w.after ::
                  w.domains != {} && e.domain != "all" && e.domain !in w.domains)
            && |s.journal| == (if |s.history| <= 256 then |s.history| else 256)
            && w.after >= |s.history| - |s.journal|
  {
    hide Execution;
    NoLostWakeups(trace, i, t);
    CommitsAreEvents(trace, i);
    var s, w := trace[i].shared, trace[i].threads[t].watcher;
    forall e | e in s.journal && e.revision > w.after
      ensures w.domains != {} && e.domain != "all" && e.domain !in w.domains
    {
      var k :| 0 <= k < |s.journal| && s.journal[k] == e;
      assert !Matches(s.journal[k], w.after, w.domains);
    }
  }

  /** Whenever the lock is free, the in-memory choices are the last saved or loaded ones. */
  lemma ChoicesAreDurable(trace: seq<System>, i: nat)
    requires Execution(trace) && i < |trace| && trace[i].shared.lock == None
    ensures trace[i].shared.selections == trace[i].shared.disk
  {
    hide Execution;
    InvAlways(trace, i);
  }

  /** At most one selection commits per expected revision. */
  lemma OneCommitPerRevision(trace: seq<System>, i: nat, j: nat, k: nat)
    requires Execution(trace) && i < |trace|
    requires var commits := trace[i].shared.commits;
             j < k < |commits| && commits[j].expected.Some?
    ensures trace[i].shared.commits[j].expected != trace[i].shared.commits[k].expected
  {
    hide Execution;
    InvAlways(trace, i);
  }

  /** Whenever the lock is free, each commit owns one revision, and the event of that revision is its event. */
  lemma CommitsAreEvents(trace: seq<System>, i: nat)
    requires Execution(trace) && i < |trace| && trace[i].shared.lock == None
    ensures var s := trace[i].shared;
            && s.revision == |s.history| && Numbered(s.history) && s.journal == Kept(s.history)
            && (forall j, k | 0 <= j < k < |s.commits| :: s.commits[j].revision < s.commits[k].revision <= s.revision)
            && (forall r | 0 <= r < |s.history| :: IsSelectionEvent(s.history[r]) <==> Committed(s, r + 1))
  {
    hide Execution;
    InvAlways(trace, i);
  }
}
