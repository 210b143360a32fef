/** Compare-and-swap provider selection in place, the store behind it, and a restart. */
module ManagerSelection {
  import opened ManagerJournal
  import opened ManagerThreads

  const MAX_LOADED := 64
  const MAX_SAVED := 128
  const MAX_BYTES := 64 * 1024

  // Names, as `domain` and `component_id` accept them

  predicate Lower(c: char) { 'a' <= c <= 'z' }

  predicate LowerOrDigit(c: char) { Lower(c) || '0' <= c <= '9' }

  predicate DomainName(s: string) {
    && 1 <= |s| <= 64 && Lower(s[0])
    && forall i | 0 <= i < |s| :: LowerOrDigit(s[i]) || s[i] in ".-"
  }

  /** Dot-separated segments, at least two, each starting with a letter or a digit. */
  predicate PackageName(s: string) {
    && s != [] && '.' in s && LowerOrDigit(s[0]) && s[|s| - 1] != '.'
    && (forall i | 0 <= i < |s| :: LowerOrDigit(s[i]) || s[i] in "_-.")
    && (forall i | 0 <= i < |s| - 1 && s[i] == '.' :: LowerOrDigit(s[i + 1]))
  }

  /** The colon of a component name is at `k`. */
  predicate ComponentAt(s: string, k: nat) {
    && k + 1 < |s| && s[k] == ':' && PackageName(s[..k]) && Lower(s[k + 1])
    && forall i | k < i < |s| :: LowerOrDigit(s[i]) || s[i] in "._-"
  }

  predicate ComponentName(s: string) {
    exists k: nat | k < |s| :: ComponentAt(s, k)
  }

  /** Every pin went through `domain` and `component_id` before it was kept. */
  ghost predicate ValidPins(m: Pins) {
    forall d | d in m :: DomainName(d) && ComponentName(m[d]) && |m[d]| <= 192
  }

  /** The compact JSON text of a document: 51 bytes around the entries, six around each pair. */
  ghost function TextBytes(m: Pins): nat {
    51 + EntryBytes(m)
  }

  ghost function EntryBytes(m: Pins): nat
    decreases |m|
  {
    if m == map[] then 0
    else
      var d :| d in m;
      |d| + |m[d]| + 6 + EntryBytes(m - {d})
  }

  lemma {:induction false} EntriesAreSmall(m: Pins)
    requires ValidPins(m)
    ensures EntryBytes(m) <= 262 * |m|
    decreases |m|
  {
    hide DomainName, ComponentName;
    if m != map[] {
      var d :| d in m && EntryBytes(m) == |d| + |m[d]| + 6 + EntryBytes(m - {d});
      assert |d| <= 64 by { DomainIsShort(d); }
      assert |m - {d}| == |m| - 1 by { assert (m - {d}).Keys == m.Keys - {d}; }
      EntriesAreSmall(m - {d});
    }
  }

  lemma DomainIsShort(d: string)
    requires DomainName(d)
    ensures |d| <= 64
  {
  }

  /** `SelectionStore`: one file, replaced as a whole or not at all. */
  class SelectionStore {
    var file: Option<Pins>

    constructor (file: Option<Pins>)
      ensures this.file == file
    {
      this.file := file;
    }

    /** `load`: a missing, oversized or overfull document loads as nothing, and so does an invalid entry. */
    ghost function Loaded(): Pins
      reads this
    {
      if file.None? || TextBytes(file.value) > MAX_BYTES || |file.value| > MAX_LOADED then map[]
      else map d | d in file.value && DomainName(d) && ComponentName(file.value[d]) :: file.value[d]
    }

    /** `save`: refused when the document has too many entries, else it may still fail and change nothing. */
    method Save(selections: Pins, writes: bool) returns (ok: bool)
      modifies this
      ensures ok == (writes && |selections| <= 128)
      ensures file == if ok then Some(selections) else old(file)
    {
      ok := writes && |selections| <= MAX_SAVED;
      if ok {
        file := Some(selections);
      }
    }
  }

  /** A restart reloads the saved choices exactly when they cover at most 64 domains. */
  lemma RestartReloads(store: SelectionStore, saved: Pins)
    requires store.file == Some(saved) && ValidPins(saved) && saved != map[]
    ensures store.Loaded() == saved <==> |saved| <= 64
    ensures |saved| > 64 ==> store.Loaded() == map[]
  {
    hide DomainName, ComponentName;
    if |saved| <= MAX_LOADED {
      EntriesAreSmall(saved);
    }
  }

  // The commit section of `select_provider`

  datatype Outcome = Conflicting | Unchanged | SaveFailed | Selected(event: Event)

  /** What one commit section does to everything the lock protects. */
  function Section(s: Shared, r: Selection, writes: bool): Shared {
    if Refused(s, r) || !writes then s
    else
      var pins := Store(s.selections, r.domain, r.component);
      var e := SelectionEvent(r).(revision := s.revision + 1);
      s.(selections := pins, disk := pins, revision := s.revision + 1, journal := Push(s.journal, e),
         history := s.history + [e], commits := s.commits + [Commit(r.expected, s.revision + 1)])
  }

  /** Where the section of thread `t` stands that took the lock with `start` shared. */
  ghost predicate Along(start: Shared, r: Selection, s: Shared, pc: Pc) {
    var pins := Store(start.selections, r.domain, r.component);
    match pc
    case SelectHeld(q) => q == r && s == start
    case Saving(q, replaced) =>
      q == r && !Refused(start, r) && replaced == Lookup(start.selections, r.domain) && s == start.(selections := pins)
    case RollingBack(q, replaced) =>
      q == r && !Refused(start, r) && replaced == Lookup(start.selections, r.domain) && s == start.(selections := pins)
    case Bumping(e, selecting) =>
      e == SelectionEvent(r) && selecting == Some(r) && !Refused(start, r) && s == start.(selections := pins, disk := pins)
    case Pushing(e) =>
      && e == SelectionEvent(r).(revision := start.revision + 1) && !Refused(start, r)
      && s == start.(selections := pins, disk := pins, revision := start.revision + 1,
                     commits := start.commits + [Commit(r.expected, start.revision + 1)])
    case Notifying => !Refused(start, r) && s == Section(start, r, true)
    case Releasing => s == Section(start, r, true) || s == Section(start, r, false)
    case _ => false
  }

  lemma AlongStatement(t: Tid, start: Shared, r: Selection, s: Shared, pc: Pc, s': Shared, pc': Pc)
    requires start.selections == start.disk && Along(start, r, s, pc) && !pc.Releasing?
    requires Statement(t, s, pc, s', pc')
    ensures Along(start, r, s', pc')
  {
    hide Ready, Push, Lookup, Store, SelectionEvent;
    StoreBack(start.selections, r.domain, r.component);
  }

  lemma AlongIsCritical(start: Shared, r: Selection, s: Shared, pc: Pc)
    requires Along(start, r, s, pc)
    ensures Critical(pc)
  {
  }

  /** While one thread holds the lock, the statements of the others change nothing that it protects. */
  lemma OthersChangeNothing(S: System, S': System, t: Tid, u: Tid)
    requires Exclusive(S) && NextBy(S, S', u) && u != t && t in S.threads && Critical(S.threads[t])
    ensures S'.shared == S.shared && t in S'.threads && S'.threads[t] == S.threads[t]
  {
    hide Refused, Ready, Store, Push, Lookup, SelectionEvent;
    LockMoves(S, S', u);
  }

  /** The thread holds the lock at `i` with selection `r`, and has not come to release it before `j`. */
  ghost predicate InSection(trace: seq<System>, i: nat, j: nat, t: Tid, r: Selection) {
    && i <= j < |trace| && t in trace[i].threads && trace[i].threads[t] == SelectHeld(r)
    && forall k | i <= k < j :: t in trace[k].threads && !trace[k].threads[t].Releasing?
  }

  lemma {:induction false} SectionGoesAlong(trace: seq<System>, i: nat, j: nat, t: Tid, r: Selection)
    requires Execution(trace) && InSection(trace, i, j, t, r)
    ensures t in trace[j].threads && Along(trace[i].shared, r, trace[j].shared, trace[j].threads[t])
    decreases j
  {
    hide Along, NextBy, Exclusive, PinsInv, JournalInv, CommitsInv, EventsInv, WakeInv, RecordsInv, Init;
    InvAlways(trace, i);
    HeldIsDurable(trace[i], t);
    if i == j {
      StartsAlong(trace[i].shared, r);
    } else {
      SectionGoesAlong(trace, i, j - 1, t, r);
      InvAlways(trace, j - 1);
      assert Succeeds(trace[j - 1], trace[j - 1 + 1]);
      var u :| NextBy(trace[j - 1], trace[j], u);
      SectionStep(trace[i].shared, trace[j - 1], trace[j], t, u, r);
    }
  }

  lemma StartsAlong(s: Shared, r: Selection)
    ensures Along(s, r, s, SelectHeld(r))
  {
  }

  lemma HeldIsDurable(S: System, t: Tid)
    requires Inv(S) && t in S.threads && S.threads[t].SelectHeld?
    ensures S.shared.selections == S.shared.disk
  {
    hide JournalInv, CommitsInv, EventsInv, WakeInv, RecordsInv, Store, Lookup;
    assert Critical(S.threads[t]);
  }

  lemma SectionStep(start: Shared, S: System, S': System, t: Tid, u: Tid, r: Selection)
    requires Exclusive(S) && NextBy(S, S', u) && t in S.threads && start.selections == start.disk
    requires Along(start, r, S.shared, S.threads[t]) && !S.threads[t].Releasing?
    ensures t in S'.threads && Along(start, r, S'.shared, S'.threads[t])
  {
    hide Along, Statement, Exclusive, Critical;
    if u == t {
      AlongStatement(t, start, r, S.shared, S.threads[t], S'.shared, S'.threads[t]);
    } else {
      AlongIsCritical(start, r, S.shared, S.threads[t]);
      OthersChangeNothing(S, S', t, u);
    }
  }

  /** In every execution: from taking the lock with a selection until about to release it, whatever the other threads do
      in between, what the lock protects has changed as by one commit section, with a save that worked or did not. */
  lemma SectionIsSequential(trace: seq<System>, i: nat, j: nat, t: Tid, r: Selection)
    requires Execution(trace) && InSection(trace, i, j, t, r) && t in trace[j].threads && trace[j].threads[t].Releasing?
    ensures trace[j].shared == Section(trace[i].shared, r, true) || trace[j].shared == Section(trace[i].shared, r, false)
  {
    hide Execution, InSection, Section;
    SectionGoesAlong(trace, i, j, t, r);
  }

  class HalManager {
    var revision: nat
    var journal: seq<Event>
    var selections: Pins
    var deviceRoutes: map<string, string>
    var activeProviders: map<string, Option<string>>
    const store: SelectionStore
    ghost var history: seq<Event>
    ghost var commits: seq<Commit>
    ghost var disk: Pins

    constructor (store: SelectionStore, loaded: Pins)
      requires loaded == store.Loaded()
      ensures this.store == store && Locked() == Shared(0, [], loaded, false, None, loaded, [], [])
      ensures deviceRoutes == map[] && activeProviders == map[]
    {
      this.store := store;
      revision, journal, selections := 0, [], loaded;
      deviceRoutes, activeProviders := map[], map[];
      history, commits, disk := [], [], loaded;
    }

    /** The state that the lock protects. */
    ghost function Locked(): Shared
      reads this
    {
      Shared(revision, journal, selections, false, None, disk, history, commits)
    }

    method AppendEvent(e: Event) returns (event: Event)
      modifies this`revision, this`journal, this`history
      ensures event == e.(revision := old(revision) + 1) && revision == old(revision) + 1
      ensures journal == Push(old(journal), event) && history == old(history) + [event]
    {
      revision := revision + 1;
      event := e.(revision := revision);
      journal := if |journal| == CAPACITY then journal[1..] + [event] else journal + [event];
      history := history + [event];
    }

    /** What follows a successful save: routes and the active provider of the domain go, the event is appended. */
    method Publish(r: Selection) returns (event: Event)
      modifies this
      ensures event == SelectionEvent(r).(revision := old(revision) + 1) && revision == old(revision) + 1
      ensures selections == disk == old(selections)
      ensures journal == Push(old(journal), event) && history == old(history) + [event]
      ensures commits == old(commits) + [Commit(r.expected, revision)]
      ensures activeProviders == old(activeProviders) - {r.domain}
      ensures deviceRoutes == (map id | id in old(deviceRoutes) && BeforeColon(id) != r.domain :: old(deviceRoutes)[id])
    {
      hide Push, SelectionEvent, BeforeColon;
      disk := selections;
      deviceRoutes := map id | id in deviceRoutes && BeforeColon(id) != r.domain :: deviceRoutes[id];
      activeProviders := activeProviders - {r.domain};
      event := AppendEvent(SelectionEvent(r));
      commits := commits + [Commit(r.expected, revision)];
    }

    /** The second lock section of `select_provider`. */
    method CommitSelection(r: Selection, writes: bool) returns (outcome: Outcome)
      requires selections == disk
      modifies this, store
      ensures outcome == Conflicting <==> r.expected.Some? && r.expected.value != old(revision)
      ensures outcome == Unchanged <==> outcome != Conflicting && Lookup(old(selections), r.domain) == r.component
      ensures outcome == SaveFailed <==>
                !Refused(old(Locked()), r) && !(writes && |Store(old(selections), r.domain, r.component)| <= MAX_SAVED)
      ensures Locked() == Section(old(Locked()), r, !outcome.SaveFailed?)
      ensures selections == disk
      ensures store.file == if outcome.Selected? then Some(selections) else old(store.file)
      ensures outcome.Selected? ==>
                && outcome.event == SelectionEvent(r).(revision := revision)
                && outcome.event.kind == (if r.component.Some? then "provider-selected" else "provider-reset")
                && outcome.event.selection == Some(if r.component.Some? then "manual" else "automatic")
                && outcome.event.domain == r.domain && outcome.event.provider == r.component
                && activeProviders == old(activeProviders) - {r.domain}
                && deviceRoutes == (map id | id in old(deviceRoutes) && BeforeColon(id) != r.domain :: old(deviceRoutes)[id])
      ensures !outcome.Selected? ==> activeProviders == old(activeProviders) && deviceRoutes == old(deviceRoutes)
    {
      hide Push, Store, Lookup, BeforeColon;
      if r.expected.Some? && r.expected.value != revision {
        return Conflicting;
      }
      var replaced := Lookup(selections, r.domain);
      if replaced == r.component {
        return Unchanged;
      }
      selections := Store(selections, r.domain, r.component);
      var saved := store.Save(selections, writes);
      if !saved {
        StoreBack(disk, r.domain, r.component);
        selections := Store(selections, r.domain, replaced);
        return SaveFailed;
      }
      var event := Publish(r);
      return Selected(event);
    }
  }

  /** `identifier.split(":", 1)[0]` */
  function BeforeColon(id: string): (head: string)
    ensures ':' !in head && (id == head || head + ":" <= id)
  {
    if id == [] || id[0] == ':' then [] else
      var rest := BeforeColon(id[1..]);
      assert id == [id[0]] + id[1..];
      [id[0]] + rest
  }

  /** There is only one text before the first colon. */
  lemma BeforeColonIs(id: string, head: string)
    requires ':' !in head && (id == head || head + ":" <= id)
    ensures BeforeColon(id) == head
  {
    var found := BeforeColon(id);
    if |found| < |head| {
      ColonInside(id, found, head);
    } else if |head| < |found| {
      ColonInside(id, head, found);
    } else {
      assert head == id[..|head|] == id[..|found|] == found;
    }
  }

  lemma ColonInside(id: string, a: string, b: string)
    requires (id == a || a + ":" <= id) && (id == b || b + ":" <= id) && |a| < |b|
    ensures ':' in b
  {
    assert (a + ":")[|a|] == ':';
    assert id[|a|] == b[|a|];
  }

  /** What a commit does to what the lock protects, spelled out: the request named the present revision or none and
      changes its domain's pin; afterwards that pin is as asked and the others are as before; and one event tells, by its
      kind and selection, whether a component was chosen or the choice given back. */
  lemma SectionSpelled(s: Shared, r: Selection)
    requires !Refused(s, r)
    ensures r.expected.Some? ==> r.expected.value == s.revision
    ensures match r.component
            case Some(component) => r.domain in s.selections ==> s.selections[r.domain] != component
            case None => r.domain in s.selections
    ensures var after := Section(s, r, true);
            && (if r.component.Some? then r.domain in after.selections && after.selections[r.domain] == r.component.value
                else r.domain !in after.selections)
            && (forall d | d != r.domain :: d in after.selections <==> d in s.selections)
            && (forall d | d != r.domain && d in s.selections :: after.selections[d] == s.selections[d])
            && after.disk == after.selections && after.revision == s.revision + 1
            && after.history == s.history
               + [if r.component.Some?
                  then Event(s.revision + 1, "provider-selected", r.domain, None, r.component, Some("manual"))
                  else Event(s.revision + 1, "provider-reset", r.domain, None, None, Some("automatic"))]
    ensures Section(s, r, false) == s
  {
    hide Push;
  }
}
