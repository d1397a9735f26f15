/** What the RPCs of one volume leave behind although the RPCs of others interleave with them. */
module NodeRestoration {
  import opened MountTable
  import opened NodeProtocol
  import opened NodeLifecycle

  /** Others make and delete files where they like, but not at or beneath the driver's paths. */
  ghost predicate KeepsAway(managed: iset<string>, s: State, step: Step) {
    step.OthersChangePaths? ==> forall p | p in managed :: Beneath(step.paths, p) == Beneath(s.fs.paths, p)
  }

  ghost predicate OthersKeepAway(managed: iset<string>, s: State, steps: seq<Step>)
    requires IsRun(managed, s, steps)
  {
    steps == [] ||
    (OthersKeepAway(managed, s, steps[..|steps| - 1])
     && KeepsAway(managed, Final(managed, s, steps[..|steps| - 1]), steps[|steps| - 1]))
  }

  /** No RPC on the same path was begun later. */
  ghost predicate LastOnPath(s: State, id: nat)
    requires id < |s.calls|
  {
    forall j | id < j < |s.calls| :: s.calls[j].rpc.path != s.calls[id].rpc.path
  }

  /** What a successful RPC stands for until the next one on its path: the path is mounted, or new. */
  ghost predicate Decided(rpc: Rpc, fs: Fs) {
    if rpc.Stage? || rpc.Publish? then Mounted(fs.mounts, rpc.path) else New(fs, rpc.path)
  }

  /** Only unpublishing and unstaging unmount and delete. */
  predicate Fits(rpc: Rpc, pc: Pc) { pc in {UnmountIt, Remove} ==> rpc.Unpublish? || rpc.Unstage? }

  ghost predicate CallDecides(s: State, id: nat)
    requires id < |s.calls|
  {
    && Fits(s.calls[id].rpc, s.calls[id].pc)
    && (s.calls[id].pc != Finished(true) || !LastOnPath(s, id) || Decided(s.calls[id].rpc, s.fs))
    && (LastOnPath(s, id) || s.calls[id].pc.Finished?)
  }

  /** The RPC's own last system call. */
  lemma OwnStepDecides(rpc: Rpc, fs: Fs, pc: Pc, fs': Fs)
    requires NodeStep(rpc, fs, pc, fs', Finished(true)) && Fits(rpc, pc)
    requires CleanAt(fs.mounts, rpc.path) && (NeedsUnmounted(pc) ==> !Mounted(fs.mounts, rpc.path))
    ensures Decided(rpc, fs')
  {
    var p := rpc.path;
    if pc == MountIt {
      var device :| Backs(rpc, fs, device) && MountOutcome(fs, device, p, true, fs');
      MountCounts(fs.mounts, device, p, p);
    }
  }

  /** An RPC on another path makes and deletes nothing at or beneath this one. */
  lemma OtherPathUntouched(rpc: Rpc, fs: Fs, pc: Pc, fs': Fs, pc': Pc, p: string)
    requires NodeStep(rpc, fs, pc, fs', pc') && !Under(p, rpc.path) && !Under(rpc.path, p)
    requires Count(fs.mounts, rpc.path) <= 1 && (NeedsUnmounted(pc) ==> !Mounted(fs.mounts, rpc.path))
    ensures forall q | Under(p, q) :: Count(fs'.mounts, q) == Count(fs.mounts, q) && (q in fs'.paths <==> q in fs.paths)
  {
    forall q | Under(p, q) ensures Count(fs'.mounts, q) == Count(fs.mounts, q) && (q in fs'.paths <==> q in fs.paths) {
      StepStaysAtPath(rpc, fs, pc, fs', pc', q);
      if q in Ancestors(rpc.path) { NoAncestorUnder(p, rpc.path, q); }
      if Under(rpc.path, q) { UnderBoth(p, rpc.path, q); }
    }
  }

  /** Two paths above a third lie one beneath the other. */
  lemma UnderBoth(p: string, r: string, q: string)
    requires Under(p, q) && Under(r, q)
    ensures Under(p, r) || Under(r, p)
  {
    if |p| < |r| {
      assert p != q && q[..|p| + 1] == p + "/" && r == q[..|r|];
      assert r[..|p| + 1] == p + "/";
    } else if |r| < |p| {
      assert r != q && q[..|r| + 1] == r + "/" && p == q[..|p|];
      assert p[..|r| + 1] == r + "/";
    } else {
      assert p == q[..|p|] == r;
    }
  }

  lemma StepKeepsDecided(managed: iset<string>, s: State, step: Step, rpc: Rpc)
    requires Unnested(managed) && Inv(managed, s) && Enabled(managed, s, step) && KeepsAway(managed, s, step)
    requires rpc.path in managed && Decided(rpc, s.fs)
    requires step.Advance? ==> s.calls[step.id].rpc.path != rpc.path
    ensures Decided(rpc, After(s, step).fs)
  {
    var p := rpc.path;
    match step {
      case Advance(other, fs', pc') =>
        assert CallOk(managed, s, other) && CleanAt(s.fs.mounts, s.calls[other].rpc.path);
        OtherPathUntouched(s.calls[other].rpc, s.fs, s.calls[other].pc, fs', pc', p);
        assert Under(p, p);
      case OthersMount(d, r) => forall q { MountCounts(s.fs.mounts, d, r, q); }
      case OthersUnmount(r) => forall q { UnmountedCounts(s.fs.mounts, r, q); }
      case OthersChangePaths(paths) =>
        assert Beneath(paths, p) == Beneath(s.fs.paths, p);
        forall q | q in paths && Under(p, q) ensures q in s.fs.paths { assert q in Beneath(paths, p); }
      case Begin(_) =>
    }
  }

  lemma StepKeepsDeciding(managed: iset<string>, s: State, step: Step, id: nat)
    requires Unnested(managed) && Inv(managed, s) && Enabled(managed, s, step) && KeepsAway(managed, s, step)
    requires forall i | 0 <= i < |s.calls| :: CallDecides(s, i)
    requires id < |After(s, step).calls|
    ensures CallDecides(After(s, step), id)
  {
    var s' := After(s, step);
    if id < |s.calls| {
      assert CallDecides(s, id) && CallOk(managed, s, id);
      assert LastOnPath(s', id) ==> LastOnPath(s, id) by {
        if LastOnPath(s', id) {
          forall j | id < j < |s.calls| ensures s.calls[j].rpc.path != s.calls[id].rpc.path {
            assert s'.calls[j].rpc == s.calls[j].rpc;
          }
        }
      }
      if step.Advance? && step.id == id {
        if step.pc == Finished(true) { OwnStepDecides(s.calls[id].rpc, s.fs, s.calls[id].pc, step.fs); }
      } else if s.calls[id].pc == Finished(true) && LastOnPath(s', id) {
        if step.Advance? { assert CallDecides(s, step.id); }
        StepKeepsDecided(managed, s, step, s.calls[id].rpc);
      }
    }
  }

  lemma {:induction false} RunKeepsDeciding(managed: iset<string>, s: State, steps: seq<Step>, id: nat)
    requires Unnested(managed) && IsRun(managed, s, steps) && OthersKeepAway(managed, s, steps)
    requires s.calls == [] && forall p | p in managed :: CleanAt(s.fs.mounts, p)
    requires id < |Final(managed, s, steps).calls|
    ensures CallDecides(Final(managed, s, steps), id)
  {
    var before, step := steps[..|steps| - 1], steps[|steps| - 1];
    var t := Final(managed, s, before);
    RunKeepsInv(managed, s, before);
    forall i | 0 <= i < |t.calls| ensures CallDecides(t, i) { RunKeepsDeciding(managed, s, before, i); }
    StepKeepsDeciding(managed, t, step, id);
  }

  /** In every run, whatever RPCs on other paths interleave and fail: once the last RPC on a path has
      succeeded, that RPC alone decides what is there. After a stage or publish the path carries exactly
      one mount and nothing is mounted beneath it; after an unpublish or unstage the path is new again. */
  lemma LastRpcDecides(managed: iset<string>, s: State, steps: seq<Step>, id: nat)
    requires Unnested(managed) && IsRun(managed, s, steps) && OthersKeepAway(managed, s, steps)
    requires s.calls == [] && forall p | p in managed :: CleanAt(s.fs.mounts, p)
    requires id < |Final(managed, s, steps).calls| && LastOnPath(Final(managed, s, steps), id)
    requires Final(managed, s, steps).calls[id].pc == Finished(true)
    ensures var fs, rpc := Final(managed, s, steps).fs, Final(managed, s, steps).calls[id].rpc;
            && CleanAt(fs.mounts, rpc.path)
            && (Mounted(fs.mounts, rpc.path) <==> rpc.Stage? || rpc.Publish?)
            && (rpc.Unpublish? || rpc.Unstage? ==> New(fs, rpc.path))
  {
    RunKeepsDeciding(managed, s, steps, id);
    RunKeepsInv(managed, s, steps);
    var t := Final(managed, s, steps);
    assert CallOk(managed, t, id) && CleanAt(t.fs.mounts, t.calls[id].rpc.path);
    assert Under(t.calls[id].rpc.path, t.calls[id].rpc.path);
  }

  /** The RPC that undoes the last one on p, if p was used at all, has succeeded. */
  ghost predicate Undone(s: State, p: string) {
    forall i | 0 <= i < |s.calls| && s.calls[i].rpc.path == p && LastOnPath(s, i) ::
      s.calls[i].pc == Finished(true) && (s.calls[i].rpc.Unpublish? || s.calls[i].rpc.Unstage?)
  }

  lemma {:induction false} LastExists(s: State, p: string, i: nat) returns (id: nat)
    requires i < |s.calls| && s.calls[i].rpc.path == p
    ensures id < |s.calls| && s.calls[id].rpc.path == p && LastOnPath(s, id)
    decreases |s.calls| - i
  {
    if LastOnPath(s, i) { return i; }
    var j :| i < j < |s.calls| && s.calls[j].rpc.path == s.calls[i].rpc.path;
    id := LastExists(s, p, j);
  }

  /** A path nobody has used stays as it was. */
  lemma {:induction false} UnusedStaysNew(managed: iset<string>, s: State, steps: seq<Step>, p: string)
    requires Unnested(managed) && IsRun(managed, s, steps) && OthersKeepAway(managed, s, steps)
    requires s.calls == [] && forall q | q in managed :: CleanAt(s.fs.mounts, q)
    requires p in managed && New(s.fs, p)
    requires forall i | 0 <= i < |Final(managed, s, steps).calls| :: Final(managed, s, steps).calls[i].rpc.path != p
    ensures New(Final(managed, s, steps).fs, p)
  {
    if steps != [] {
      var before, step := steps[..|steps| - 1], steps[|steps| - 1];
      var t := Final(managed, s, before);
      forall i | 0 <= i < |t.calls| ensures t.calls[i].rpc.path != p {
        assert Final(managed, s, steps).calls[i].rpc == t.calls[i].rpc;
      }
      UnusedStaysNew(managed, s, before, p);
      RunKeepsInv(managed, s, before);
      StepKeepsDecided(managed, t, step, Unpublish(p));
    }
  }

  /** Restoration. Take any run and any path that was new when it began. If the path was not used, or its
      last RPC is an unpublish or unstage that has succeeded, the path is new when the run ends: nothing
      exists and nothing is mounted at it or beneath it, whatever failed on the way and whatever the RPCs
      on other paths were doing meanwhile. */
  lemma PathRestored(managed: iset<string>, s: State, steps: seq<Step>, p: string)
    requires Unnested(managed) && IsRun(managed, s, steps) && OthersKeepAway(managed, s, steps)
    requires s.calls == [] && forall q | q in managed :: CleanAt(s.fs.mounts, q)
    requires p in managed && New(s.fs, p) && Undone(Final(managed, s, steps), p)
    ensures New(Final(managed, s, steps).fs, p)
  {
    var t := Final(managed, s, steps);
    if i :| 0 <= i < |t.calls| && t.calls[i].rpc.path == p {
      var id := LastExists(t, p, i);
      LastRpcDecides(managed, s, steps, id);
    } else {
      UnusedStaysNew(managed, s, steps, p);
    }
  }
}
