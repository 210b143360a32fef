/** Which provider a domain uses: the lazy loop of `inventory` and the probe-everything choice of `list_providers`. */
module ManagerFailover {
  import opened ManagerJournal

  datatype Status = Available | Degraded | Down

  /** What probing one candidate gives: an exception, or a structured status. */
  datatype Probe = Raised | Answered(status: Status)

  datatype Mode = Manual | Stale | Automatic

  datatype Health = Health(status: Status, failed: bool)

  predicate Up(p: Probe) {
    p.Answered? && p.status != Down
  }

  predicate StructuredDown(p: Probe) {
    p == Answered(Down)
  }

  /** `active` is the first healthy candidate, else the first that answered it is unavailable, else none. */
  ghost predicate IsChoice(ordered: seq<string>, probes: string -> Probe, active: Option<string>) {
    if exists i | 0 <= i < |ordered| :: Up(probes(ordered[i])) then FirstSuch(ordered, c => Up(probes(c)), active)
    else if exists i | 0 <= i < |ordered| :: StructuredDown(probes(ordered[i])) then
      FirstSuch(ordered, c => StructuredDown(probes(c)), active)
    else active == None
  }

  ghost predicate FirstSuch(ordered: seq<string>, p: string -> bool, active: Option<string>) {
    exists i | 0 <= i < |ordered| :: p(ordered[i]) && active == Some(ordered[i]) && forall j | 0 <= j < i :: !p(ordered[j])
  }

  /** `_ordered_for`: a live pin leaves one candidate, a stale one leaves them all. */
  function OrderedFor(candidates: seq<string>, preferred: Option<string>): (r: (seq<string>, Mode))
    ensures r.1 == Manual <==> preferred.Some? && preferred.value in candidates
    ensures r.0 == if r.1 == Manual then [preferred.value] else candidates
  {
    if preferred.None? then (candidates, Automatic)
    else if preferred.value in candidates then ([preferred.value], Manual)
    else (candidates, Stale)
  }

  /** The loop of `inventory` over one domain's candidates; it probes no further than it needs to. */
  method InventoryActive(ordered: seq<string>, mode: Mode, probes: string -> Probe)
    returns (active: Option<string>, probed: nat)
    requires mode == Manual ==> |ordered| == 1
    ensures mode != Manual ==> IsChoice(ordered, probes, active)
    ensures mode == Manual ==> active == if probes(ordered[0]).Raised? then None else Some(ordered[0])
    ensures probed <= |ordered| && forall j | 0 <= j < probed - 1 :: !Up(probes(ordered[j]))
    ensures probed < |ordered| ==> 0 < probed && Up(probes(ordered[probed - 1]))
  {
    var down: Option<string> := None;
    ghost var first := 0;
    probed := 0;
    while probed < |ordered|
      invariant 0 <= probed <= |ordered| && (mode == Manual ==> probed == 0 || probes(ordered[0]).Raised?)
      invariant forall j | 0 <= j < probed :: !Up(probes(ordered[j]))
      invariant down == None ==> forall j | 0 <= j < probed :: !StructuredDown(probes(ordered[j]))
      invariant down.Some? ==>
                  && mode != Manual && first < probed && down.value == ordered[first]
                  && StructuredDown(probes(ordered[first]))
                  && forall j | 0 <= j < first :: !StructuredDown(probes(ordered[j]))
    {
      var candidate := ordered[probed];
      var outcome := probes(candidate);
      probed := probed + 1;
      if outcome.Answered? {
        if outcome.status != Down || mode == Manual {
          return Some(candidate), probed;
        }
        if down == None {
          down, first := Some(candidate), probed - 1;
        }
      } else if mode == Manual {
        break;
      }
    }
    active := down;
  }

  function HealthOf(p: Probe): Health {
    match p
    case Raised => Health(Down, true)
    case Answered(status) => Health(status, false)
  }

  /** The probing half of `list_providers`: every candidate's health is recorded under its component. */
  method ProbeAll(matching: seq<string>, probes: string -> Probe, before: map<string, Health>)
    returns (health: map<string, Health>)
    ensures forall i | 0 <= i < |matching| :: matching[i] in health && health[matching[i]] == HealthOf(probes(matching[i]))
    ensures forall c | c in before && c !in matching :: c in health && health[c] == before[c]
  {
    health := before;
    var i := 0;
    while i < |matching|
      invariant 0 <= i <= |matching|
      invariant forall j | 0 <= j < i :: matching[j] in health && health[matching[j]] == HealthOf(probes(matching[j]))
      invariant forall c | c in before && c !in matching :: c in health && health[c] == before[c]
    {
      health := health[matching[i] := HealthOf(probes(matching[i]))];
      i := i + 1;
    }
  }

  method FirstHealthy(matching: seq<string>, health: map<string, Health>) returns (found: Option<string>)
    ensures found == None <==> forall i | 0 <= i < |matching| :: !(matching[i] in health && health[matching[i]].status != Down)
    ensures found.Some? ==> FirstSuch(matching, c => c in health && health[c].status != Down, found)
  {
    var i := 0;
    while i < |matching|
      invariant 0 <= i <= |matching|
      invariant forall j | 0 <= j < i :: !(matching[j] in health && health[matching[j]].status != Down)
    {
      if matching[i] in health && health[matching[i]].status != Down {
        return Some(matching[i]);
      }
      i := i + 1;
    }
    return None;
  }

  method FirstDown(matching: seq<string>, health: map<string, Health>) returns (found: Option<string>)
    ensures found == None <==> forall i | 0 <= i < |matching| :: !(matching[i] in health && health[matching[i]] == Health(Down, false))
    ensures found.Some? ==> FirstSuch(matching, c => c in health && health[c] == Health(Down, false), found)
  {
    var i := 0;
    while i < |matching|
      invariant 0 <= i <= |matching|
      invariant forall j | 0 <= j < i :: !(matching[j] in health && health[matching[j]] == Health(Down, false))
    {
      if matching[i] in health && health[matching[i]] == Health(Down, false) {
        return Some(matching[i]);
      }
      i := i + 1;
    }
    return None;
  }

  /** The choice `list_providers` makes after probing every candidate; without candidates it leaves the old one. */
  method ListedActive(matching: seq<string>, probes: string -> Probe, before: map<string, Health>, previous: Option<string>)
    returns (active: Option<string>)
    ensures if matching == [] then active == previous else IsChoice(matching, probes, active)
  {
    if matching == [] {
      return previous;
    }
    var health := ProbeAll(matching, probes, before);
    var healthy := FirstHealthy(matching, health);
    var down := FirstDown(matching, health);
    SameFirst(matching, c => c in health && health[c].status != Down, c => Up(probes(c)), healthy);
    SameFirst(matching, c => c in health && health[c] == Health(Down, false), c => StructuredDown(probes(c)), down);
    active := if healthy.Some? then healthy else down;
  }

  lemma SameFirst(matching: seq<string>, p: string -> bool, q: string -> bool, active: Option<string>)
    requires forall i | 0 <= i < |matching| :: p(matching[i]) == q(matching[i])
    ensures FirstSuch(matching, p, active) ==> FirstSuch(matching, q, active)
  {
  }

  lemma FirstIsUnique(ordered: seq<string>, p: string -> bool, a: Option<string>, b: Option<string>)
    requires FirstSuch(ordered, p, a) && FirstSuch(ordered, p, b)
    ensures a == b
  {
  }

  /** Both ways of choosing agree, since the choice is unique. */
  lemma ChoicesAgree(ordered: seq<string>, probes: string -> Probe, a: Option<string>, b: Option<string>)
    requires IsChoice(ordered, probes, a) && IsChoice(ordered, probes, b)
    ensures a == b
  {
    if exists i | 0 <= i < |ordered| :: Up(probes(ordered[i])) {
      FirstIsUnique(ordered, c => Up(probes(c)), a, b);
    } else if exists i | 0 <= i < |ordered| :: StructuredDown(probes(ordered[i])) {
      FirstIsUnique(ordered, c => StructuredDown(probes(c)), a, b);
    }
  }

  /** What `inventory` settles on for one domain: a live pin, and nothing else, unless probing it raised; without a live
      pin the choice among all candidates, of which there may be none. */
  method DomainActive(candidates: seq<string>, preferred: Option<string>, probes: string -> Probe)
    returns (active: Option<string>)
    ensures if preferred.Some? && preferred.value in candidates
            then active == if probes(preferred.value).Raised? then None else preferred
            else IsChoice(candidates, probes, active)
  {
    var (ordered, mode) := OrderedFor(candidates, preferred);
    if ordered == [] {
      return None;
    }
    var probed;
    active, probed := InventoryActive(ordered, mode, probes);
  }

  /** Without a live pin and with at least one candidate, `inventory` and a probing `list_providers` settle on the same
      provider; without candidates `inventory` records none and `list_providers` records nothing. */
  method UnpinnedChoices(candidates: seq<string>, preferred: Option<string>, probes: string -> Probe,
                         before: map<string, Health>, previous: Option<string>)
    returns (inventoried: Option<string>, listed: Option<string>)
    requires preferred.Some? ==> preferred.value !in candidates
    ensures IsChoice(candidates, probes, inventoried)
    ensures if candidates != [] then listed == inventoried else inventoried == None && listed == previous
  {
    inventoried := DomainActive(candidates, preferred, probes);
    listed := ListedActive(candidates, probes, before, previous);
    if candidates != [] { ChoicesAgree(candidates, probes, inventoried, listed); }
  }
}
