/** The revision counter, the bounded journal and the batches that `watch` returns. */
module ManagerJournal {

  datatype Option<+T> = None | Some(value: T)

  datatype Event = Event(revision: int, kind: string, domain: string,
                         id: Option<string>, provider: Option<string>, selection: Option<string>)

  datatype Reply = Reply(revision: nat, events: seq<Event>, resync: bool)

  const CAPACITY := 256
  const BATCH := 128

  predicate Matches(e: Event, after: int, domains: set<string>) {
    e.revision > after && (domains == {} || e.domain == "all" || e.domain in domains)
  }

  function Matching(events: seq<Event>, after: int, domains: set<string>): (r: seq<Event>)
    ensures |r| <= |events|
    decreases |events|
  {
    if events == [] then []
    else
      var n := |events| - 1;
      Matching(events[..n], after, domains) + if Matches(events[n], after, domains) then [events[n]] else []
  }

  /** What a deque of the journal's capacity keeps. */
  function Kept(history: seq<Event>): seq<Event> {
    if |history| <= CAPACITY then history else history[|history| - CAPACITY..]
  }

  function Evicted(history: seq<Event>): nat {
    |history| - |Kept(history)|
  }

  function Batch(events: seq<Event>): seq<Event> {
    if |events| <= BATCH then events else events[..BATCH]
  }

  /** `watch`, without its waiting, on everything that was ever appended. */
  function Answer(history: seq<Event>, after: int, domains: set<string>): Reply {
    Reply(|history|, Batch(Matching(Kept(history), after, domains)), after < Evicted(history))
  }

  /** Event `i` of a history carries revision `i + 1`. */
  ghost predicate Numbered(history: seq<Event>) {
    forall i | 0 <= i < |history| :: history[i].revision == i + 1
  }

  class Journal {
    var revision: nat
    var journal: seq<Event>
    ghost var history: seq<Event>

    ghost predicate Valid()
      reads this
    {
      revision == |history| && Numbered(history) && journal == Kept(history)
    }

    constructor ()
      ensures Valid() && history == []
    {
      revision := 0;
      journal := [];
      history := [];
    }

    /** `_append_event_locked`, without the wake-up. */
    method AppendEvent(kind: string, domain: string, id: Option<string>, provider: Option<string>,
                       selection: Option<string>) returns (event: Event)
      requires Valid()
      modifies this
      ensures Valid()
      ensures event == Event(revision, kind, domain, id, provider, selection) && revision == old(revision) + 1
      ensures history == old(history) + [event]
    {
      revision := revision + 1;
      event := Event(revision, kind, domain, id, provider, selection);
      history := history + [event];
      journal := journal + [event];
      if |journal| > CAPACITY {
        journal := journal[1..];
      }
    }

    method HasMatch(after: int, domains: set<string>) returns (found: bool)
      requires Valid()
      ensures found <==> exists i | 0 <= i < |journal| :: Matches(journal[i], after, domains)
      ensures found <==> exists e | e in journal ::
                e.revision > after && (domains == {} || e.domain == "all" || e.domain in domains)
    {
      var i := 0;
      while i < |journal|
        invariant 0 <= i <= |journal| && forall j | 0 <= j < i :: !Matches(journal[j], after, domains)
      {
        if Matches(journal[i], after, domains) {
          return true;
        }
        i := i + 1;
      }
      return false;
    }

    method Resync(after: int) returns (resync: bool)
      requires Valid()
      ensures resync == (after < Evicted(history))
    {
      var oldest := if journal != [] then journal[0].revision else revision + 1;
      resync := after < oldest - 1;
    }

    /** The end of `watch`, once it stopped waiting. */
    method Collect(after: int, domains: set<string>) returns (reply: Reply)
      requires Valid()
      ensures reply == Answer(history, after, domains)
    {
      var resync := Resync(after);
      var events: seq<Event> := [];
      var i := 0;
      while i < |journal|
        invariant 0 <= i <= |journal| && events == Matching(journal[..i], after, domains)
      {
        assert journal[..i + 1][..i] == journal[..i];
        if Matches(journal[i], after, domains) {
          events := events + [journal[i]];
        }
        i := i + 1;
      }
      assert journal[..i] == journal;
      reply := Reply(revision, Batch(events), resync);
    }
  }

  // Clients

  /** A client that keeps calling `watch`: where it is, what it received, whether it was told to resync. */
  datatype Client = Client(cursor: int, received: seq<Event>, resynced: bool)

  /** What happens next: an event is appended by anyone, or the client calls `watch`. */
  datatype Turn = Append(event: Event) | Poll

  function Receive(c: Client, reply: Reply): Client {
    if c.resynced then c
    else if reply.resync then c.(resynced := true)
    else
      var n := |reply.events|;
      Client(if n < BATCH then reply.revision else reply.events[n - 1].revision, c.received + reply.events, false)
  }

  function Appended(history: seq<Event>, turns: seq<Turn>): seq<Event>
    decreases |turns|
  {
    if turns == [] then history
    else
      var before := Appended(history, turns[..|turns| - 1]);
      match turns[|turns| - 1]
      case Append(e) => before + [e.(revision := |before| + 1)]
      case Poll => before
  }

  function Session(history: seq<Event>, turns: seq<Turn>, start: int, domains: set<string>): Client
    decreases |turns|
  {
    if turns == [] then Client(start, [], false)
    else
      var init := turns[..|turns| - 1];
      var c := Session(history, init, start, domains);
      if turns[|turns| - 1].Append? then c else Receive(c, Answer(Appended(history, init), c.cursor, domains))
  }

  lemma FrontOfConcat(a: seq<Event>, b: seq<Event>)
    requires b != []
    ensures (a + b)[..|a + b| - 1] == a + b[..|b| - 1]
  {
  }

  lemma {:induction false} MatchingConcat(a: seq<Event>, b: seq<Event>, after: int, domains: set<string>)
    ensures Matching(a + b, after, domains) == Matching(a, after, domains) + Matching(b, after, domains)
    decreases |b|
  {
    if b == [] {
      assert a + b == a;
    } else {
      var n := |b| - 1;
      hide Matches;
      MatchingConcat(a, b[..n], after, domains);
      FrontOfConcat(a, b);
    }
  }

  /** Events at or before a revision contribute nothing to what follows it. */
  lemma {:induction false} OldEventsSkipped(events: seq<Event>, after: int, domains: set<string>)
    requires forall i | 0 <= i < |events| :: events[i].revision <= after
    ensures Matching(events, after, domains) == []
    decreases |events|
  {
    if events != [] { OldEventsSkipped(events[..|events| - 1], after, domains); }
  }

  /** When all events are newer than both revisions, either gives the same matches. */
  lemma {:induction false} NewerThanBoth(events: seq<Event>, a: int, b: int, domains: set<string>)
    requires forall i | 0 <= i < |events| :: events[i].revision > a && events[i].revision > b
    ensures Matching(events, a, domains) == Matching(events, b, domains)
    decreases |events|
  {
    if events != [] { NewerThanBoth(events[..|events| - 1], a, b, domains); }
  }

  /** Without a resync, the journal's matches are the matches of the whole history after the cursor. */
  lemma JournalComplete(history: seq<Event>, after: int, domains: set<string>)
    requires Numbered(history) && Evicted(history) <= after <= |history|
    ensures Matching(Kept(history), after, domains) == Matching(history[after..], after, domains)
  {
    hide Matching;
    var skip := after - Evicted(history);
    assert Kept(history) == Kept(history)[..skip] + history[after..];
    MatchingConcat(Kept(history)[..skip], history[after..], after, domains);
    OldEventsSkipped(Kept(history)[..skip], after, domains);
  }

  /** The first `k` matches are the matches of the events up to the `k`-th one. */
  lemma {:induction false} MatchesUpTo(events: seq<Event>, base: nat, domains: set<string>, k: nat)
    requires forall i | 0 <= i < |events| :: events[i].revision == base + i + 1
    requires 0 < k <= |Matching(events, base, domains)|
    ensures var r := Matching(events, base, domains)[k - 1].revision - base;
            0 < r <= |events| && Matching(events[..r], base, domains) == Matching(events, base, domains)[..k]
    decreases |events|
  {
    var n := |events| - 1;
    var init := events[..n];
    if k <= |Matching(init, base, domains)| {
      MatchesUpTo(init, base, domains, k);
      var r := Matching(init, base, domains)[k - 1].revision - base;
      assert events[..r] == init[..r];
    } else {
      assert events[..n + 1] == events;
    }
  }

  /** One poll without a resync hands over exactly the matches between the old and the new cursor. */
  lemma PollDelivers(history: seq<Event>, c: Client, domains: set<string>)
    requires Numbered(history) && 0 <= c.cursor <= |history| && !c.resynced
    requires !Answer(history, c.cursor, domains).resync
    ensures var next := Receive(c, Answer(history, c.cursor, domains));
            && c.cursor <= next.cursor <= |history| && !next.resynced
            && next.received == c.received + Matching(history[c.cursor..next.cursor], c.cursor, domains)
  {
    hide Matching, Kept;
    var all := Matching(history[c.cursor..], c.cursor, domains);
    JournalComplete(history, c.cursor, domains);
    if |all| < BATCH {
      assert history[c.cursor..|history|] == history[c.cursor..];
    } else {
      MatchesUpTo(history[c.cursor..], c.cursor, domains, BATCH);
      var next := all[BATCH - 1].revision;
      assert history[c.cursor..][..next - c.cursor] == history[c.cursor..next];
    }
  }

  lemma {:induction false} AppendedGrows(history: seq<Event>, turns: seq<Turn>)
    requires Numbered(history)
    ensures Numbered(Appended(history, turns)) && history <= Appended(history, turns)
    decreases |turns|
  {
    if turns != [] { AppendedGrows(history, turns[..|turns| - 1]); }
  }

  /** Until it is told to resync, a client has received every matching event from its start to its cursor,
      exactly once and in order, whatever was appended between its calls. */
  lemma {:induction false} ClientMissesNothing(history: seq<Event>, turns: seq<Turn>, start: nat, domains: set<string>)
    requires Numbered(history) && start <= |history|
    ensures var c, now := Session(history, turns, start, domains), Appended(history, turns);
            !c.resynced ==>
              && start <= c.cursor <= |now|
              && c.received == Matching(now[start..c.cursor], start, domains)
    decreases |turns|
  {
    hide Matching, Answer, Receive, Numbered;
    if turns == [] {
      assert Matching(history[start..start], start, domains) == [] by { NothingMatches(start, domains); }
      assert history[start..start] == [];
    } else {
      var init, last := turns[..|turns| - 1], turns[|turns| - 1];
      ClientMissesNothing(history, init, start, domains);
      AppendedGrows(history, init);
      SessionStep(Session(history, init, start, domains), Appended(history, init), last, start, domains);
    }
  }

  lemma NothingMatches(after: int, domains: set<string>)
    ensures Matching([], after, domains) == []
  {
  }

  ghost predicate Served(c: Client, now: seq<Event>, start: nat, domains: set<string>) {
    !c.resynced ==> start <= c.cursor <= |now| && c.received == Matching(now[start..c.cursor], start, domains)
  }

  lemma SessionStep(c: Client, now: seq<Event>, turn: Turn, start: nat, domains: set<string>)
    requires Numbered(now) && Served(c, now, start, domains)
    ensures match turn
            case Append(e) => Served(c, now + [e.(revision := |now| + 1)], start, domains)
            case Poll => Served(Receive(c, Answer(now, c.cursor, domains)), now, start, domains)
  {
    hide Matching, Answer, Numbered;
    match turn
    case Append(e) =>
      var later := now + [e.(revision := |now| + 1)];
      if !c.resynced { assert later[start..c.cursor] == now[start..c.cursor]; }
    case Poll =>
      if !c.resynced && !Answer(now, c.cursor, domains).resync {
        PollDelivers(now, c, domains);
        var next := Receive(c, Answer(now, c.cursor, domains));
        assert now[start..next.cursor] == now[start..c.cursor] + now[c.cursor..next.cursor];
        MatchingConcat(now[start..c.cursor], now[c.cursor..next.cursor], start, domains);
        NewerSlice(now, c.cursor, next.cursor, start, domains);
      }
  }

  lemma NewerSlice(now: seq<Event>, lo: nat, hi: nat, start: nat, domains: set<string>)
    requires Numbered(now) && start <= lo <= hi <= |now|
    ensures Matching(now[lo..hi], lo, domains) == Matching(now[lo..hi], start, domains)
  {
    NewerThanBoth(now[lo..hi], lo, start, domains);
  }

  /** `resync` is reported exactly when an event newer than the cursor has been evicted. */
  lemma ResyncMeansLoss(history: seq<Event>, after: nat, domains: set<string>)
    requires Numbered(history)
    ensures Answer(history, after, domains).resync <==>
            exists i | 0 <= i < |history| - |Kept(history)| :: history[i].revision > after
  {
    var n := Evicted(history);
    if after < n { assert history[n - 1].revision > after; }
  }

  /** A cursor from the future is answered with nothing and the present revision. */
  lemma FutureCursor(history: seq<Event>, after: int, domains: set<string>)
    requires Numbered(history) && after >= |history|
    ensures Answer(history, after, domains) == Reply(|history|, [], false)
  {
    OldEventsSkipped(Kept(history), after, domains);
  }

  // The same, with the filter spelled out

  ghost predicate Increasing(events: seq<Event>) {
    forall i, j | 0 <= i < j < |events| :: events[i].revision < events[j].revision
  }

  lemma {:induction false} MatchingIs(events: seq<Event>, after: int, domains: set<string>)
    ensures forall e :: e in Matching(events, after, domains) <==>
              e in events && e.revision > after && (domains == {} || e.domain == "all" || e.domain in domains)
    ensures Increasing(events) ==> Increasing(Matching(events, after, domains))
    decreases |events|
  {
    if events != [] {
      var n := |events| - 1;
      MatchingIs(events[..n], after, domains);
      assert events == events[..n] + [events[n]];
      if Increasing(events) {
        assert Increasing(events[..n]);
        assert forall e | e in events[..n] :: e.revision < events[n].revision;
        LargestLast(Matching(events[..n], after, domains), events[n]);
      }
    }
  }

  lemma LargestLast(events: seq<Event>, last: Event)
    requires Increasing(events) && forall e | e in events :: e.revision < last.revision
    ensures Increasing(events + [last])
  {
    assert forall i | 0 <= i < |events| :: events[i] in events;
  }

  lemma NumberedIncreases(history: seq<Event>, lo: nat, hi: nat)
    requires Numbered(history) && lo <= hi <= |history|
    ensures Increasing(history[lo..hi])
    ensures forall e | e in history[lo..hi] :: lo < e.revision <= hi
  {
  }

  /** Until it is told to resync, a client has received exactly the events from its start to its cursor that belong to
      all domains or to one it named, and every event when it named none; each once, in increasing revision. */
  lemma ClientReceivesItsDomains(history: seq<Event>, turns: seq<Turn>, start: nat, domains: set<string>)
    requires Numbered(history) && start <= |history|
    ensures var c, now := Session(history, turns, start, domains), Appended(history, turns);
            !c.resynced ==>
              && start <= c.cursor <= |now| && Increasing(c.received)
              && forall e :: e in c.received <==>
                   e in now[start..c.cursor] && (domains == {} || e.domain == "all" || e.domain in domains)
  {
    hide Matching, Session, Appended, Increasing, Numbered;
    var c, now := Session(history, turns, start, domains), Appended(history, turns);
    ClientMissesNothing(history, turns, start, domains);
    AppendedGrows(history, turns);
    if !c.resynced {
      MatchingIs(now[start..c.cursor], start, domains);
      NumberedIncreases(now, start, c.cursor);
    }
  }

  lemma BatchIs(all: seq<Event>)
    requires Increasing(all)
    ensures var events := Batch(all);
            && |events| <= 128 && Increasing(events)
            && (forall e | e in events :: e in all)
            && (forall e | e in all :: e in events || (|events| == 128 && events[127].revision < e.revision))
  {
    var events := Batch(all);
    forall e | e in all
      ensures e in events || (|events| == 128 && events[127].revision < e.revision)
    {
      var k :| 0 <= k < |all| && all[k] == e;
      if k < |events| { assert events[k] == e; }
    }
  }

  /** What one reply says: the newest revision; up to 128 events of the last 256 that are newer than the cursor and of the
      client's domains, in increasing revision; and whether anything newer than the cursor is no longer among those 256.
      A wanted event is missing only from a full reply, and then it is newer than all of the reply. */
  lemma ReplyIs(history: seq<Event>, after: int, domains: set<string>)
    requires Numbered(history)
    ensures var reply := Answer(history, after, domains);
            var window := if |history| <= 256 then history else history[|history| - 256..];
            && reply.revision == |history|
            && (reply.resync <==> after < |history| - |window|)
            && |reply.events| <= 128 && Increasing(reply.events)
            && (forall e | e in reply.events ::
                  e in window && e.revision > after && (domains == {} || e.domain == "all" || e.domain in domains))
            && (forall e | e in window && e.revision > after && (domains == {} || e.domain == "all" || e.domain in domains) ::
                  e in reply.events || (|reply.events| == 128 && reply.events[127].revision < e.revision))
  {
    hide Matching, Numbered, Matches, Batch, Increasing;
    var window := Kept(history);
    NumberedIncreases(history, |history| - |window|, |history|);
    assert history[|history| - |window|..|history|] == window;
    var all := Matching(window, after, domains);
    MatchingIs(window, after, domains);
    BatchIs(all);
  }
}
