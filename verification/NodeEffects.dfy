/** What one node RPC does from beginning to end when nobody else is about: exactly what the protocol
    can do on its own. */
module NodeEffects {
  import opened MountTable
  import opened NodeProtocol

  /** The paths once the mount point exists; publishing onto an existing path makes no directory. */
  function WithMountPoint(rpc: Rpc, fs: Fs): set<string> {
    if rpc.Publish? && rpc.path in fs.paths then fs.paths else WithDirectory(fs.paths, rpc.path)
  }

  ghost predicate MountedNow(rpc: Rpc, fs: Fs, fs': Fs) {
    exists device :: Backs(rpc, fs, device) && fs' == Fs(fs.mounts + [Mount(device, rpc.path)], WithMountPoint(rpc, fs))
  }

  /** Stage and Publish: an existing mount is taken as success; otherwise the mount point is made and
      the device mounted, or, on failure, some of that is done. */
  ghost predicate MountEffect(rpc: Rpc, fs: Fs, ok: bool, fs': Fs) {
    if rpc.Stage? && rpc.device !in fs.paths then !ok && fs' == fs
    else if Mounted(fs.mounts, rpc.path) then fs' == fs
    else if ok then MountedNow(rpc, fs, fs')
    else MountedNow(rpc, fs, fs') ||
         (fs'.mounts == fs.mounts && PartlyMade(fs.paths, rpc.path, fs'.paths) && fs'.paths <= WithMountPoint(rpc, fs))
  }

  /** Unpublish and Unstage: refused when there is nothing to undo; otherwise the mount is taken away
      and the path deleted, or, on failure, some of that is done. */
  ghost predicate UnmountEffect(rpc: Rpc, fs: Fs, ok: bool, fs': Fs) {
    var p := rpc.path;
    if rpc.Unpublish? && p !in fs.paths then !ok && fs' == fs
    else if rpc.Unstage? && DeviceName(fs.mounts, p) == "" then !ok && fs' == fs
    else if ok then fs' == Fs(Unmounted(fs.mounts, p), fs.paths - Beneath(fs.paths, p))
    else fs' == fs || (fs'.mounts == Unmounted(fs.mounts, p) && fs.paths - Beneath(fs.paths, p) <= fs'.paths <= fs.paths)
  }

  ghost predicate Effect(rpc: Rpc, fs: Fs, ok: bool, fs': Fs) {
    if rpc.Stage? || rpc.Publish? then MountEffect(rpc, fs, ok, fs') else UnmountEffect(rpc, fs, ok, fs')
  }

  /** An RPC standing at pc can end, after so many system calls of its own, with fs' and ok. */
  ghost predicate CanEnd(rpc: Rpc, fs: Fs, pc: Pc, fs': Fs, ok: bool, calls: nat)
    decreases calls
  {
    if calls == 0 then fs' == fs && pc == Finished(ok)
    else exists fs'', pc'' :: NodeStep(rpc, fs, pc, fs'', pc'') && CanEnd(rpc, fs'', pc'', fs', ok, calls - 1)
  }

  lemma Before(rpc: Rpc, fs: Fs, pc: Pc, fs'': Fs, pc'': Pc, fs': Fs, ok: bool, calls: nat)
    requires NodeStep(rpc, fs, pc, fs'', pc'') && CanEnd(rpc, fs'', pc'', fs', ok, calls)
    ensures CanEnd(rpc, fs, pc, fs', ok, calls + 1)
  {}

  lemma Last(rpc: Rpc, fs: Fs, pc: Pc, fs': Fs, ok: bool)
    requires NodeStep(rpc, fs, pc, fs', Finished(ok))
    ensures CanEnd(rpc, fs, pc, fs', ok, 1)
  {
    Before(rpc, fs, pc, fs', Finished(ok), fs', ok, 0);
  }

  lemma UnmountedAbsent(ms: seq<Mount>, p: string)
    requires !Mounted(ms, p)
    ensures Unmounted(ms, p) == ms
  {
    if ms != [] {
      assert ms == ms[..|ms| - 1] + [ms[|ms| - 1]];
      Concat(ms[..|ms| - 1], [ms[|ms| - 1]], p);
      UnmountedAbsent(ms[..|ms| - 1], p);
    }
  }

  lemma MountEffectIsRun(rpc: Rpc, fs: Fs, ok: bool, fs': Fs) returns (calls: nat)
    requires (rpc.Stage? || rpc.Publish?) && MountEffect(rpc, fs, ok, fs')
    ensures CanEnd(rpc, fs, First(rpc), fs', ok, calls)
  {
    if fs' == fs && !ok {
      Last(rpc, fs, First(rpc), fs, false);
      return 1;
    }
    if Mounted(fs.mounts, rpc.path) {
      Last(rpc, fs, Probe, fs, true);
      calls := 1;
    } else {
      var made := fs.(paths := WithMountPoint(rpc, fs));
      if fs'.mounts == fs.mounts {
        assert !MountedNow(rpc, fs, fs');
        Last(rpc, fs, Mkdir, fs', false);
        Before(rpc, fs, Probe, fs, Mkdir, fs', false, 1);
        calls := 2;
      } else {
        var device :| Backs(rpc, fs, device) && fs' == Fs(fs.mounts + [Mount(device, rpc.path)], made.paths);
        assert Backs(rpc, made, device) && MountOutcome(made, device, rpc.path, ok, fs');
        Last(rpc, made, MountIt, fs', ok);
        if rpc.Publish? && rpc.path in fs.paths {
          Before(rpc, fs, Probe, fs, MountIt, fs', ok, 1);
          calls := 2;
        } else {
          Before(rpc, fs, Mkdir, made, MountIt, fs', ok, 1);
          Before(rpc, fs, Probe, fs, Mkdir, fs', ok, 2);
          calls := 3;
        }
      }
    }
    if rpc.Stage? {
      Before(rpc, fs, Look, fs, Probe, fs', ok, calls);
      calls := calls + 1;
    }
  }

  lemma UnmountEffectIsRun(rpc: Rpc, fs: Fs, ok: bool, fs': Fs) returns (calls: nat)
    requires (rpc.Unpublish? || rpc.Unstage?) && UnmountEffect(rpc, fs, ok, fs')
    ensures CanEnd(rpc, fs, First(rpc), fs', ok, calls)
  {
    if fs' == fs && !ok {
      Last(rpc, fs, Look, fs, false);
      return 1;
    }
    var p := rpc.path;
    var unmounted := fs.(mounts := Unmounted(fs.mounts, p));
    Last(rpc, unmounted, Remove, fs', ok);
    if Mounted(fs.mounts, p) || rpc.Unstage? {
      Before(rpc, fs, UnmountIt, unmounted, Remove, fs', ok, 1);
      calls := 2;
    } else {
      UnmountedAbsent(fs.mounts, p);
      calls := 1;
    }
    if rpc.Unpublish? {
      Before(rpc, fs, Probe, fs, if Mounted(fs.mounts, p) then UnmountIt else Remove, fs', ok, calls);
      calls := calls + 1;
    }
    Before(rpc, fs, Look, fs, if rpc.Unstage? then UnmountIt else Probe, fs', ok, calls);
    calls := calls + 1;
  }

  /** Whatever an RPC does on its own, the protocol can do ... */
  lemma EffectIsRun(rpc: Rpc, fs: Fs, ok: bool, fs': Fs) returns (calls: nat)
    requires Effect(rpc, fs, ok, fs')
    ensures CanEnd(rpc, fs, First(rpc), fs', ok, calls)
  {
    if rpc.Stage? || rpc.Publish? {
      calls := MountEffectIsRun(rpc, fs, ok, fs');
    } else {
      calls := UnmountEffectIsRun(rpc, fs, ok, fs');
    }
  }

  /** What remains to be done from each point on. */
  ghost predicate EffectFrom(rpc: Rpc, fs: Fs, pc: Pc, ok: bool, fs': Fs) {
    var p := rpc.path;
    match pc
    case Look => !rpc.Publish? ==> Effect(rpc, fs, ok, fs')
    case Probe =>
      if rpc.Publish? || (rpc.Stage? && rpc.device in fs.paths) || (rpc.Unpublish? && p in fs.paths)
      then Effect(rpc, fs, ok, fs') else true
    case Mkdir =>
      (rpc.Stage? || (rpc.Publish? && p !in fs.paths)) ==>
        || (exists device :: Backs(rpc, fs, device) && fs' == Fs(fs.mounts + [Mount(device, p)], WithDirectory(fs.paths, p)))
        || (!ok && fs'.mounts == fs.mounts && PartlyMade(fs.paths, p, fs'.paths))
    case MountIt =>
      || (exists device :: Backs(rpc, fs, device) && fs' == Fs(fs.mounts + [Mount(device, p)], fs.paths))
      || (!ok && fs' == fs)
    case UnmountIt =>
      || (!ok && fs' == fs)
      || (fs'.mounts == Unmounted(fs.mounts, p) && fs.paths - Beneath(fs.paths, p) <= fs'.paths <= fs.paths
          && (ok ==> fs'.paths == fs.paths - Beneath(fs.paths, p)))
    case Remove => RemoveOutcome(fs, p, ok, fs')
    case Finished(o) => fs' == fs && ok == o
  }

  /** ... and the protocol, on its own, can do nothing else. */
  lemma {:induction false} RunIsEffect(rpc: Rpc, fs: Fs, pc: Pc, fs': Fs, ok: bool, calls: nat)
    requires CanEnd(rpc, fs, pc, fs', ok, calls)
    ensures EffectFrom(rpc, fs, pc, ok, fs')
    decreases calls
  {
    if calls > 0 {
      var fs'', pc'' :| NodeStep(rpc, fs, pc, fs'', pc'') && CanEnd(rpc, fs'', pc'', fs', ok, calls - 1);
      RunIsEffect(rpc, fs'', pc'', fs', ok, calls - 1);
      if !Mounted(fs.mounts, rpc.path) { UnmountedAbsent(fs.mounts, rpc.path); }
    }
  }

  /** So the effects are the solo runs. */
  lemma EffectsAreSoloRuns(rpc: Rpc, fs: Fs, ok: bool, fs': Fs)
    ensures Effect(rpc, fs, ok, fs') <==> exists calls :: CanEnd(rpc, fs, First(rpc), fs', ok, calls)
  {
    if Effect(rpc, fs, ok, fs') {
      var calls := EffectIsRun(rpc, fs, ok, fs');
      assert CanEnd(rpc, fs, First(rpc), fs', ok, calls);
    } else if exists calls :: CanEnd(rpc, fs, First(rpc), fs', ok, calls) {
      var calls :| CanEnd(rpc, fs, First(rpc), fs', ok, calls);
      RunIsEffect(rpc, fs, First(rpc), fs', ok, calls);
      assert false;
    }
  }

  /** What a mount does to the map from path to device: it binds the path to the staged device, or to
      the device of the source. A source the map does not know may show any device. */
  ghost predicate MapBinds(managed: iset<string>, rpc: Rpc, table: map<string, string>, table': map<string, string>) {
    && rpc.path in table' && table' == table[rpc.path := table'[rpc.path]]
    && (rpc.Stage? ==> table'[rpc.path] == rpc.device)
    && (rpc.Publish? && rpc.source in managed && rpc.source in table ==> table'[rpc.path] == table[rpc.source])
  }

  /** Staging and publishing bind a path that is not bound, unpublishing and unstaging unbind it. */
  ghost predicate MapEffect(managed: iset<string>, rpc: Rpc, table: map<string, string>, table': map<string, string>) {
    if rpc.Unpublish? || rpc.Unstage? then table' == table - {rpc.path}
    else if rpc.path in table then table' == table
    else MapBinds(managed, rpc, table, table')
  }

  lemma MountBinds(managed: iset<string>, rpc: Rpc, fs: Fs, device: string, table: map<string, string>)
    requires Represents(managed, fs.mounts, table) && rpc.path in managed && rpc.path !in table && Backs(rpc, fs, device)
    ensures Represents(managed, fs.mounts + [Mount(device, rpc.path)], table[rpc.path := device])
    ensures MapBinds(managed, rpc, table, table[rpc.path := device])
  {
    MountRefinesMap(managed, fs.mounts, table, device, rpc.path);
  }

  /** The list of mounts refines that map: a successful RPC has the map's effect, and a failed one has
      it or leaves the map alone. */
  lemma EffectRefinesMap(managed: iset<string>, rpc: Rpc, fs: Fs, ok: bool, fs': Fs, table: map<string, string>)
    returns (table': map<string, string>)
    requires Represents(managed, fs.mounts, table) && rpc.path in managed && Effect(rpc, fs, ok, fs')
    ensures Represents(managed, fs'.mounts, table')
    ensures MapEffect(managed, rpc, table, table') || (!ok && table' == table)
  {
    var p := rpc.path;
    Concat(fs.mounts, [], p);
    if rpc.Stage? || rpc.Publish? {
      if p in table || !MountedNow(rpc, fs, fs') { return table; }
      var device :| Backs(rpc, fs, device) && fs' == Fs(fs.mounts + [Mount(device, p)], WithMountPoint(rpc, fs));
      MountBinds(managed, rpc, fs, device, table);
      return table[p := device];
    }
    UnmountRefinesMap(managed, fs.mounts, table, p);
    return if fs'.mounts == fs.mounts && !ok then table else table - {p};
  }

  /** A retry completes what a failed attempt has begun: the same RPC once more, successfully, ends where
      one successful attempt would have. */
  lemma RetryCompletes(rpc: Rpc, fs: Fs, mid: Fs, fs': Fs)
    requires Count(fs.mounts, rpc.path) <= 1
    requires Effect(rpc, fs, false, mid) && Effect(rpc, mid, true, fs')
    ensures Effect(rpc, fs, true, fs')
  {
    var p := rpc.path;
    if rpc.Unpublish? || rpc.Unstage? {
      UnmountedCounts(fs.mounts, p, p);
      Concat(mid.mounts, [], p);
      if Unmounted(fs.mounts, p) == mid.mounts {
        if !Mounted(mid.mounts, p) { UnmountedAbsent(mid.mounts, p); }
      }
    } else if MountedNow(rpc, fs, mid) {
      var device :| Backs(rpc, fs, device) && mid == Fs(fs.mounts + [Mount(device, p)], WithMountPoint(rpc, fs));
      MountCounts(fs.mounts, device, p, p);
    } else if !Mounted(fs.mounts, p) {
      assert WithMountPoint(rpc, mid) == WithMountPoint(rpc, fs);
      var device :| Backs(rpc, mid, device) && fs' == Fs(mid.mounts + [Mount(device, p)], WithMountPoint(rpc, mid));
      assert Backs(rpc, fs, device);
    }
  }

  /** For unstaging there need be no such retry. After a failed attempt one can succeed exactly if the
      attempt has not unmounted; otherwise every further attempt is refused, and what the attempt has
      left of the directory stays. */
  lemma FailedUnstageIsStuck(p: string, fs: Fs, mid: Fs)
    requires Count(fs.mounts, p) <= 1 && DeviceName(fs.mounts, p) != ""
    requires Effect(Unstage(p), fs, false, mid)
    ensures (exists fs' :: Effect(Unstage(p), mid, true, fs')) <==> mid.mounts == fs.mounts
    ensures mid.mounts != fs.mounts ==> forall again, fs' | Effect(Unstage(p), mid, again, fs') :: !again && fs' == mid
  {
    UnmountedCounts(fs.mounts, p, p);
    Concat(mid.mounts, [], p);
    Concat(fs.mounts, [], p);
    if mid.mounts == fs.mounts {
      assert Effect(Unstage(p), mid, true, Fs(Unmounted(mid.mounts, p), mid.paths - Beneath(mid.paths, p)));
    }
  }

  /** Unstaging succeeds only on a path that shows a device. If that was its only mount, unstaging again
      fails and changes nothing. */
  lemma UnstageTwice(p: string, fs: Fs, fs': Fs, again: bool, fs'': Fs)
    requires Count(fs.mounts, p) <= 1 && Effect(Unstage(p), fs, true, fs') && Effect(Unstage(p), fs', again, fs'')
    ensures DeviceName(fs.mounts, p) != ""
    ensures !again && fs'' == fs'
  {
    UnmountedCounts(fs.mounts, p, p);
    Concat(fs'.mounts, [], p);
  }

  /** Unpublishing, too: after a success the path is gone, and unpublishing it again fails. */
  lemma UnpublishTwice(p: string, fs: Fs, fs': Fs, again: bool, fs'': Fs)
    requires Effect(Unpublish(p), fs, true, fs') && Effect(Unpublish(p), fs', again, fs'')
    ensures !again && fs'' == fs'
  {
    assert Under(p, p);
  }
}
