/** The storage functions as they change the process state: two fixed arrays of names, the cached scan, the revisions. */
module StorageHost {
  import opened Storage

  // The fixed arrays

  lemma {:induction false} RemoveAt(s: seq<Name>, k: nat)
    requires k < |s| && s[k] !in s[..k]
    ensures Remove(s, s[k]) == s[..k] + s[k + 1..]
    decreases |s|
  {
    var n := |s| - 1;
    if k < n {
      assert s[..n][..k] == s[..k];
      RemoveAt(s[..n], k);
      assert s[k] == s[..n][k];
      assert s[..k] + s[k + 1..] == s[..k] + s[..n][k + 1..] + [s[n]];
    } else {
      assert s[..k] + s[k + 1..] == s[..n];
    }
  }

  lemma {:induction false} RemoveAbsent(s: seq<Name>, name: Name)
    requires name !in s
    ensures Remove(s, name) == s
    decreases |s|
  {
    if s != [] {
      var n := |s| - 1;
      assert name !in s[..n];
      RemoveAbsent(s[..n], name);
      assert s == s[..n] + [s[n]];
    }
  }

  class NameList {
    const values: array<Name>
    var count: nat

    constructor ()
      ensures Valid() && Contents() == [] && fresh(values)
    {
      values := new Name[SLOTS](_ => "");
      count := 0;
    }

    predicate Valid()
      reads this
    {
      values.Length == SLOTS && count <= SLOTS
    }

    function Contents(): seq<Name>
      requires Valid()
      reads this, values
    {
      values[..count]
    }

    /** `storage_list_contains` */
    method Contains(name: Name) returns (found: bool)
      requires Valid()
      ensures found <==> name in Contents()
    {
      var i := 0;
      while i < count
        invariant i <= count
        invariant name !in values[..i]
      {
        if values[i] == name {
          return true;
        }
        i := i + 1;
      }
      return false;
    }

    /** `storage_list_add` */
    method Add(name: Name)
      requires Valid()
      modifies this, values
      ensures Valid() && Contents() == Storage.Add(old(Contents()), name)
    {
      if count >= SLOTS {
        return;
      }
      var present := Contains(name);
      if present {
        return;
      }
      values[count] := name;
      count := count + 1;
    }

    /** The `memmove` of the entries after `k` one place down. */
    method Close(k: nat)
      requires Valid() && k < count
      modifies this, values
      ensures Valid() && Contents() == old(Contents()[..k] + Contents()[k + 1..])
    {
      var i := k + 1;
      while i < count
        invariant k < i <= count == old(count)
        invariant forall j | 0 <= j < k :: values[j] == old(values[j])
        invariant forall j | k <= j < i - 1 :: values[j] == old(values[j + 1])
        invariant forall j | i <= j < count :: values[j] == old(values[j])
      {
        values[i - 1] := values[i];
        i := i + 1;
      }
      count := count - 1;
    }

    /** `storage_list_remove` */
    method Remove(name: Name)
      requires Valid()
      modifies this, values
      ensures Valid() && Contents() == Storage.Remove(old(Contents()), name)
    {
      hide Storage.Remove;
      var i := 0;
      while i < count
        invariant i <= count == old(count)
        invariant values[..] == old(values[..])
        invariant name !in values[..i]
      {
        if values[i] == name {
          RemoveAt(Contents(), i);
          Close(i);
          return;
        }
        i := i + 1;
      }
      RemoveAbsent(Contents(), name);
    }

    /** The loop at the end of `storage_refresh` that removes every name the scan does not show. */
    method Retain(seen: seq<Name>)
      requires Valid()
      modifies this, values
      ensures Valid() && Contents() == Prune(old(Contents()), seen)
    {
      hide Storage.Remove, Prune, Retaining;
      ghost var was := Contents();
      var i := 0;
      ghost var done := 0;
      RetainStart(was, seen);
      while i < count
        invariant Valid() && i <= count
        invariant Retaining(was, done, seen, Contents(), i)
        decreases count - i
      {
        RetainStep(was, done, seen, Contents(), i);
        if values[i] in seen {
          i := i + 1;
        } else {
          RemoveAt(Contents(), i);
          Remove(values[i]);
        }
        done := done + 1;
      }
      RetainEnd(was, done, seen, Contents());
    }
  }

  /** The first `done` names have been looked at; the `i` of them that were seen are still there, and so is the rest. */
  ghost predicate Retaining(was: seq<Name>, done: nat, seen: seq<Name>, now: seq<Name>, i: nat) {
    && done <= |was| && i == |Prune(was[..done], seen)|
    && now == Prune(was[..done], seen) + was[done..]
    && forall x | x in Prune(was[..done], seen) :: x in seen
  }

  lemma RetainStart(was: seq<Name>, seen: seq<Name>)
    ensures Retaining(was, 0, seen, was, 0)
  {
  }

  lemma RetainStep(was: seq<Name>, done: nat, seen: seq<Name>, now: seq<Name>, i: nat)
    requires Retaining(was, done, seen, now, i) && i < |now|
    ensures now[i] in seen ==> Retaining(was, done + 1, seen, now, i + 1)
    ensures now[i] !in seen ==> now[i] !in now[..i] && Retaining(was, done + 1, seen, now[..i] + now[i + 1..], i)
  {
    var kept := Prune(was[..done], seen);
    assert now[i] == was[done] && now[..i] == kept && now[i + 1..] == was[done + 1..];
    assert was[..done + 1][..done] == was[..done];
    var next := Prune(was[..done + 1], seen);
    if now[i] in seen {
      assert next == kept + [now[i]];
      assert now == next + was[done + 1..];
    } else {
      assert next == kept;
    }
  }

  lemma RetainEnd(was: seq<Name>, done: nat, seen: seq<Name>, now: seq<Name>)
    requires Retaining(was, done, seen, now, |now|)
    ensures now == Prune(was, seen)
  {
    assert was[..done] == was;
  }

  // The process

  lemma ConfiguredIsOk(s: State, enabled: bool)
    ensures Configured(s, enabled).code == Ok
    ensures forall scans :: RefreshNext(Configured(s, enabled).state, scans).code == Ok
  {
  }

  class Host {
    const attempted: NameList
    const suppressed: NameList
    var cache: seq<Volume>
    var autoMount: bool
    var configError: bool
    var storageRevision: nat
    var revision: nat
    ghost var log: seq<Entry>

    constructor (autoMount: bool, configError: bool)
      ensures Valid() && Fresh(Snapshot()) && log == []
      ensures Snapshot().autoMount == autoMount && Snapshot().configError == configError
      ensures fresh(attempted) && fresh(suppressed) && fresh(attempted.values) && fresh(suppressed.values)
    {
      attempted := new NameList();
      suppressed := new NameList();
      cache := [];
      this.autoMount := autoMount;
      this.configError := configError;
      storageRevision := 0;
      revision := 0;
      log := [];
    }

    ghost function Repr(): set<object>
    {
      {this, attempted, suppressed, attempted.values, suppressed.values}
    }

    ghost predicate Valid()
      reads Repr()
    {
      attempted.Valid() && suppressed.Valid() && attempted != suppressed && attempted.values != suppressed.values
    }

    ghost function Snapshot(): State
      requires Valid()
      reads Repr()
    {
      State(attempted.Contents(), suppressed.Contents(), cache, autoMount, configError, storageRevision, revision)
    }

    /** The process did what `step` says, and logged it. */
    twostate predicate Did(before: State, step: Step, code: Code)
      reads Repr()
    {
      Valid() && Snapshot() == step.state && code == step.code && log == old(log) + step.log
    }

    /** The tail of `storage_refresh`. */
    method Observe(seen: seq<Volume>) returns (changed: bool)
      requires Valid()
      modifies Repr()
      ensures Did(old(Snapshot()), Look(old(Snapshot()), seen), Ok)
      ensures (changed <==> old(cache) != seen) && cache == seen
    {
      suppressed.Retain(Names(seen));
      attempted.Retain(Names(seen));
      changed := cache != seen;
      cache := seen;
      if changed {
        storageRevision := storageRevision + 1;
        revision := revision + 1;
      }
      log := log + [Pruned(Names(seen))];
    }

    /** The policy of `storage_refresh`: `mounted` are the volumes whose mount was tried. */
    method ApplyPolicy(volumes: seq<Volume>) returns (mounted: seq<Name>)
      requires Valid()
      modifies attempted, attempted.values, `log
      ensures Valid()
      ensures var (now, tried) := Tried(volumes, old(attempted.Contents()), suppressed.Contents());
              attempted.Contents() == now && mounted == tried && log == old(log) + AutoMounts(tried)
    {
      hide Add;
      mounted := [];
      ghost var was := attempted.Contents();
      var i := 0;
      while i < |volumes|
        invariant i <= |volumes| && Valid()
        invariant suppressed.Contents() == old(suppressed.Contents())
        invariant (attempted.Contents(), mounted) == Tried(volumes[..i], was, suppressed.Contents())
        invariant log == old(log) + AutoMounts(mounted)
      {
        assert volumes[..i + 1][..i] == volumes[..i];
        if !volumes[i].mounted {
          var again := attempted.Contains(volumes[i].name);
          var unwanted := suppressed.Contains(volumes[i].name);
          if !again && !unwanted {
            attempted.Add(volumes[i].name);
            assert AutoMounts(mounted + [volumes[i].name]) == AutoMounts(mounted) + [AutoMount(volumes[i].name)];
            mounted := mounted + [volumes[i].name];
            log := log + [AutoMount(volumes[i].name)];
          }
        }
        i := i + 1;
      }
      assert volumes[..i] == volumes;
    }

    /** `storage_refresh(1)` */
    method RefreshAndApply(scans: Scans) returns (changed: bool)
      requires Valid()
      modifies Repr()
      ensures Did(old(Snapshot()), RefreshNext(old(Snapshot()), scans), Ok)
      ensures changed <==> Snapshot().storageRevision != old(storageRevision)
    {
      hide Tried, Prune;
      if !autoMount {
        changed := Observe(scans.first);
      } else {
        ghost var was := Snapshot();
        var mounted := ApplyPolicy(scans.first);
        assert Snapshot() == was.(attempted := attempted.Contents());
        changed := Observe(scans.seen);
        assert log == old(log) + (AutoMounts(mounted) + [Pruned(Names(scans.seen))]);
      }
    }

    method FinishMount(e: Event) returns (code: Code)
      requires Valid() && e.Mount?
      modifies Repr()
      ensures Did(old(Snapshot()), PassMount(old(Snapshot()), e), code)
    {
      hide Settle, Storage.Remove, Find, Names;
      suppressed.Remove(e.name);
      log := log + [MountPassed(e.name)];
      var _ := Observe(e.after);
      var volume := Find(cache, e.name);
      if volume.None? || !volume.value.mounted {
        var _ := Observe(e.again);
        return MountFailed;
      }
      return Ok;
    }

    /** `build_storage_mount`, from the lookup of the volume on */
    method BuildMount(e: Event) returns (code: Code)
      requires Valid() && e.Mount?
      modifies Repr()
      ensures Did(old(Snapshot()), MountNext(old(Snapshot()), e), code)
    {
      hide Settle, PassMount, Find, Names, NameList.Contents;
      var _ := Observe(e.before);
      var found := Find(cache, e.name);
      if found.None? {
        return NotFound;
      }
      if !found.value.mounted && !e.mounts {
        var _ := Observe(e.after);
        return MountFailed;
      }
      code := FinishMount(e);
    }

    method FinishUnmount(e: Event, wasMounted: bool) returns (code: Code)
      requires Valid() && e.Unmount?
      modifies Repr()
      ensures Did(old(Snapshot()), PassUnmount(old(Snapshot()), e, wasMounted), code)
    {
      hide Settle, Add, Find, Names;
      if wasMounted {
        suppressed.Add(e.name);
        log := log + [Unmounted(e.name)];
      }
      var _ := Observe(e.after);
      var volume := Find(cache, e.name);
      return if volume.None? || volume.value.mounted then UnmountFailed else Ok;
    }

    /** `build_storage_unmount` with `storage_unmount_volume`, from the lookup of the volume on */
    method BuildUnmount(e: Event) returns (code: Code)
      requires Valid() && e.Unmount?
      modifies Repr()
      ensures Did(old(Snapshot()), UnmountNext(old(Snapshot()), e), code)
    {
      hide Settle, PassUnmount, Find, Names, NameList.Contents;
      var _ := Observe(e.before);
      var found := Find(cache, e.name);
      if found.None? {
        return NotFound;
      }
      var volume := found.value;
      if volume.mounted {
        if !volume.managed || volume.mountPoint == "" || volume.mountPoint[0] != '/' {
          return NotManaged;
        }
        if !e.unmounts {
          var _ := Observe(e.after);
          return UnmountFailed;
        }
      }
      code := FinishUnmount(e, volume.mounted);
    }

    method Configure(enabled: bool)
      requires Valid()
      modifies Repr()
      ensures Did(old(Snapshot()), Configured(old(Snapshot()), enabled), Ok)
    {
      var changed := autoMount != enabled || configError;
      if enabled && autoMount != enabled {
        attempted.count := 0;
        log := log + [TurnedOn];
      }
      autoMount := enabled;
      configError := false;
      if changed {
        storageRevision := storageRevision + 1;
        revision := revision + 1;
      }
    }

    /** `build_storage_config`, once the request is valid */
    method BuildConfig(e: Event) returns (code: Code)
      requires Valid() && e.Configure?
      modifies Repr()
      ensures Did(old(Snapshot()), ConfigureNext(old(Snapshot()), e), code)
    {
      hide RefreshNext, Configured, NameList.Contents;
      if !e.writes {
        configError := true;
        return WriteFailed;
      }
      ConfiguredIsOk(Snapshot(), e.enabled);
      Configure(e.enabled);
      if e.enabled {
        var _ := RefreshAndApply(e.scans);
      }
      return Ok;
    }

    /** The main loop on a block event of the kernel */
    method OnUevent(e: Event) returns (changed: bool)
      requires Valid() && e.Uevent?
      modifies Repr()
      ensures Did(old(Snapshot()), UeventNext(old(Snapshot()), e), Ok)
      ensures changed <==> Snapshot().storageRevision != old(storageRevision)
    {
      hide RefreshNext, Storage.Remove;
      if e.device.Some? {
        attempted.Remove(e.device.value);
        log := log + [BlockEvent(e.device.value)];
      }
      ghost var forgot := Forgot(old(Snapshot()), e.device);
      assert Snapshot() == forgot.state && log == old(log) + forgot.log;
      changed := RefreshAndApply(e.scans);
    }
  }
}
