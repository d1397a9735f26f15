/** A volume's life on a node: staged, published to any number of targets, unpublished in any order,
    unstaged. */
module NodeLifecycle {
  import opened Results
  import opened MountTable
  import opened NodeProtocol
  import opened NodeEffects

  /** The RPCs so far have succeeded one after the other; trace[i] is what RPC i finds. */
  ghost predicate AllSucceed(rpcs: seq<Rpc>, trace: seq<Fs>) {
    && 1 <= |trace| <= |rpcs| + 1
    && forall i | 0 <= i < |trace| - 1 :: Effect(rpcs[i], trace[i], true, trace[i + 1])
  }

  function LifecycleRpcs(device: string, stage: string, targets: seq<string>, order: seq<string>): (rpcs: seq<Rpc>)
    ensures |rpcs| == |targets| + |order| + 2
  {
    [Stage(device, stage)]
    + seq(|targets|, i requires 0 <= i < |targets| => Publish(stage, targets[i]))
    + seq(|order|, i requires 0 <= i < |order| => Unpublish(order[i]))
    + [Unstage(stage)]
  }

  /** The path is new: nothing exists and nothing is mounted at it or beneath it. */
  ghost predicate New(fs: Fs, p: string) {
    (forall q | q in fs.paths :: !Under(p, q)) && Deletable(fs.mounts, p)
  }

  /** A set of paths none of which lies beneath another, listed without repetition. */
  ghost predicate Separate(ps: seq<string>) {
    forall i, j | 0 <= i < |ps| && 0 <= j < |ps| && i != j :: !Under(ps[i], ps[j])
  }

  function AllAncestors(ps: seq<string>): set<string> {
    if ps == [] then {} else AllAncestors(ps[..|ps| - 1]) + Ancestors(ps[|ps| - 1])
  }

  /** The mounts of one device at some paths, in order. */
  function MountsAt(device: string, ps: seq<string>): seq<Mount> {
    if ps == [] then [] else MountsAt(device, ps[..|ps| - 1]) + [Mount(device, ps[|ps| - 1])]
  }

  /** All of ps but the last p. */
  function Drop(ps: seq<string>, p: string): seq<string> {
    if ps == [] then []
    else if ps[|ps| - 1] == p then ps[..|ps| - 1]
    else Drop(ps[..|ps| - 1], p) + [ps[|ps| - 1]]
  }

  lemma {:induction false} DropRemovesOne(ps: seq<string>, p: string)
    requires p in ps
    ensures multiset(Drop(ps, p)) == multiset(ps) - multiset{p}
    ensures forall q | q in Drop(ps, p) :: q in ps
  {
    var front, last := ps[..|ps| - 1], ps[|ps| - 1];
    assert ps == front + [last];
    if last != p {
      DropRemovesOne(front, p);
    }
  }

  lemma {:induction false} MountsAtLookup(device: string, ps: seq<string>, q: string)
    ensures Mounted(MountsAt(device, ps), q) <==> q in ps
    ensures q in ps ==> DeviceAt(MountsAt(device, ps), q) == Some(device)
  {
    if ps != [] {
      var front, last := ps[..|ps| - 1], ps[|ps| - 1];
      MountsAtLookup(device, front, q);
      MountCounts(MountsAt(device, front), device, last, q);
      Concat(MountsAt(device, front), [], q);
      assert ps == front + [last];
    }
  }

  /** Unmounting a published target leaves the initial and the other mounts in their order. */
  lemma {:induction false} UnmountTarget(before: seq<Mount>, device: string, ps: seq<string>, p: string)
    requires p in ps
    ensures Unmounted(before + MountsAt(device, ps), p) == before + MountsAt(device, Drop(ps, p))
  {
    var front, last := ps[..|ps| - 1], ps[|ps| - 1];
    var ms := before + MountsAt(device, front);
    assert before + MountsAt(device, ps) == ms + [Mount(device, last)];
    assert (ms + [Mount(device, last)])[..|ms|] == ms;
    if last != p {
      assert ps == front + [last];
      UnmountTarget(before, device, front, p);
      assert (Drop(front, p) + [last])[..|Drop(front, p)|] == Drop(front, p);
    }
  }

  lemma {:induction false} NoAncestorsUnder(p: string, qs: seq<string>, a: string)
    requires a in AllAncestors(qs) && forall q | q in qs :: p == q || !Under(p, q)
    ensures !Under(p, a)
  {
    if a in Ancestors(qs[|qs| - 1]) {
      NoAncestorUnder(p, qs[|qs| - 1], a);
    } else {
      NoAncestorsUnder(p, qs[..|qs| - 1], a);
    }
  }

  /** The assumptions: new and separate paths, unpublished in some permutation, every RPC so far successful. */
  ghost predicate Lifecycle(device: string, stage: string, targets: seq<string>, order: seq<string>, trace: seq<Fs>) {
    && multiset(order) == multiset(targets)
    && AllSucceed(LifecycleRpcs(device, stage, targets, order), trace)
    && Separate([stage] + targets)
    && forall p | p in [stage] + targets :: New(trace[0], p)
  }

  ghost function Made(stage: string, targets: seq<string>, fs: Fs): set<string> {
    fs.paths + Ancestors(stage) + AllAncestors(targets)
  }

  /** Of what exists while some targets are published, only p itself lies at or beneath p. */
  lemma OnlyItself(stage: string, targets: seq<string>, fs: Fs, ps: seq<string>, p: string)
    requires Separate([stage] + targets) && p in [stage] + targets
    requires (forall q | q in ps :: q in targets) && New(fs, p)
    ensures forall q | q in Made(stage, ps, fs) :: !Under(p, q)
    ensures forall q | q in Made(stage, targets, fs) :: !Under(p, q)
    ensures forall q | q in [stage] + ps && Under(p, q) :: q == p
  {
    var all := [stage] + targets;
    forall q | q in all && Under(p, q) ensures q == p {
      var i :| 0 <= i < |all| && all[i] == p;
      var j :| 0 <= j < |all| && all[j] == q;
      assert i == j;
    }
    assert forall q | q in targets || q in ps || q == stage :: q in all by {
      assert all[0] == stage;
      assert forall i | 0 <= i < |targets| :: all[i + 1] == targets[i];
    }
    forall a | a in Ancestors(stage) ensures !Under(p, a) { NoAncestorUnder(p, stage, a); }
    forall a | a in AllAncestors(ps) ensures !Under(p, a) { NoAncestorsUnder(p, ps, a); }
    forall a | a in AllAncestors(targets) ensures !Under(p, a) { NoAncestorsUnder(p, targets, a); }
  }

  /** What the node looks like while the targets ps are published. */
  ghost predicate Looks(device: string, stage: string, made: seq<string>, ps: seq<string>, start: Fs, fs: Fs) {
    && fs.mounts == start.mounts + [Mount(device, stage)] + MountsAt(device, ps)
    && fs.paths == Made(stage, made, start) + {stage} + (set p | p in ps)
  }

  /** A target is mounted exactly if it is among the published ones, and shows the device. */
  lemma MountedTargets(device: string, stage: string, targets: seq<string>,
    made: seq<string>, ps: seq<string>, start: Fs, fs: Fs, p: string)
    requires Separate([stage] + targets) && p in [stage] + targets && New(start, p)
    requires Looks(device, stage, made, ps, start, fs)
    ensures Mounted(fs.mounts, p) <==> p == stage || p in ps
    ensures p == stage || p in ps ==> DeviceAt(fs.mounts, p) == Some(device)
  {
    var staged := start.mounts + [Mount(device, stage)];
    assert Under(p, p);
    Concat(start.mounts, [], p);
    MountCounts(start.mounts, device, stage, p);
    Concat(staged, MountsAt(device, ps), p);
    MountsAtLookup(device, ps, p);
  }

  lemma {:induction false} AfterPublishes(device: string, stage: string, targets: seq<string>,
    order: seq<string>, trace: seq<Fs>, k: nat)
    requires Lifecycle(device, stage, targets, order, trace) && k <= |targets| && k + 1 < |trace|
    ensures Looks(device, stage, targets[..k], targets[..k], trace[0], trace[k + 1])
  {
    var rpcs, start := LifecycleRpcs(device, stage, targets, order), trace[0];
    if k == 0 {
      assert rpcs[0] == Stage(device, stage) && Effect(rpcs[0], trace[0], true, trace[1]);
      assert stage in [stage] + targets && Under(stage, stage);
    } else {
      AfterPublishes(device, stage, targets, order, trace, k - 1);
      var ps, p, fs := targets[..k - 1], targets[k - 1], trace[k];
      assert rpcs[k] == Publish(stage, p) && Effect(rpcs[k], fs, true, trace[k + 1]);
      assert targets[..k] == ps + [p] && (ps + [p])[..|ps|] == ps;
      assert ([stage] + targets)[0] == stage && ([stage] + targets)[k] == p;
      assert p != stage && p !in ps by {
        assert forall i | 0 <= i < k - 1 :: ([stage] + targets)[i + 1] == ps[i] && !Under(ps[i], p);
        assert Under(p, p) && !Under(stage, p);
      }
      MountedTargets(device, stage, targets, ps, ps, start, fs, p);
      MountedTargets(device, stage, targets, ps, ps, start, fs, stage);
      OnlyItself(stage, targets, start, ps, p);
      assert Under(p, p) && p !in fs.paths;
      assert trace[k + 1].mounts == fs.mounts + [Mount(device, p)];
    }
  }

  lemma {:induction false} AfterUnpublishes(device: string, stage: string, targets: seq<string>,
    order: seq<string>, trace: seq<Fs>, k: nat)
    returns (ps: seq<string>)
    requires Lifecycle(device, stage, targets, order, trace) && k <= |order| && |targets| + k + 1 < |trace|
    ensures multiset(ps) == multiset(order[k..])
    ensures Looks(device, stage, targets, ps, trace[0], trace[|targets| + k + 1])
  {
    var rpcs, start := LifecycleRpcs(device, stage, targets, order), trace[0];
    if k == 0 {
      AfterPublishes(device, stage, targets, order, trace, |targets|);
      assert targets[..|targets|] == targets && order[0..] == order;
      return targets;
    }
    var qs := AfterUnpublishes(device, stage, targets, order, trace, k - 1);
    var p, fs, fs' := order[k - 1], trace[|targets| + k], trace[|targets| + k + 1];
    assert rpcs[|targets| + k] == Unpublish(p) && Effect(rpcs[|targets| + k], fs, true, fs');
    Remaining(targets, order, qs, k);
    ps := Drop(qs, p);
    DropRemovesOne(qs, p);
    assert New(start, p) by { assert p in [stage] + targets; }
    UnpublishStep(device, stage, targets, start, qs, p, fs, fs');
  }

  lemma Remaining(targets: seq<string>, order: seq<string>, qs: seq<string>, k: nat)
    requires multiset(order) == multiset(targets) && 0 < k <= |order| && multiset(qs) == multiset(order[k - 1..])
    ensures order[k - 1] in qs && multiset(qs) - multiset{order[k - 1]} == multiset(order[k..])
    ensures multiset(qs) <= multiset(targets) && forall q | q in qs :: q in targets
  {
    assert order[k - 1..] == [order[k - 1]] + order[k..] && order == order[..k - 1] + order[k - 1..];
    assert order[k - 1] in multiset(qs);
    forall q | q in qs ensures q in targets { assert q in multiset(qs) && q in multiset(targets); }
  }

  lemma DropAsSet(stage: string, targets: seq<string>, qs: seq<string>, p: string)
    requires Separate([stage] + targets) && p in qs && p in targets && multiset(qs) <= multiset(targets)
    ensures (set q | q in Drop(qs, p)) == (set q | q in qs) - {p}
  {
    DropRemovesOne(qs, p);
    assert multiset(qs)[p] == 1 by { TargetsOnce(stage, targets, p); }
    forall q ensures q in Drop(qs, p) <==> q in qs && q != p {
      assert q in Drop(qs, p) <==> q in multiset(Drop(qs, p));
      assert q in qs <==> q in multiset(qs);
    }
  }

  /** One unpublish of a published target. */
  lemma UnpublishStep(device: string, stage: string, targets: seq<string>,
    start: Fs, qs: seq<string>, p: string, fs: Fs, fs': Fs)
    requires Separate([stage] + targets) && New(start, p)
    requires p in qs && (forall q | q in qs :: q in targets) && multiset(qs) <= multiset(targets)
    requires Looks(device, stage, targets, qs, start, fs) && Effect(Unpublish(p), fs, true, fs')
    ensures Looks(device, stage, targets, Drop(qs, p), start, fs')
  {
    assert Under(p, p) && stage != p && Beneath(fs.paths, p) == {p} by {
      assert p in [stage] + targets;
      OnlyItself(stage, targets, start, qs, p);
      StageIsNoTarget(stage, targets, p);
    }
    assert p !in Made(stage, targets, start) by {
      assert p in [stage] + targets;
      OnlyItself(stage, targets, start, qs, p);
    }
    DropAsSet(stage, targets, qs, p);
    UnmountTarget(start.mounts + [Mount(device, stage)], device, qs, p);
  }

  /** The final unstage. */
  lemma UnstageStep(device: string, stage: string, targets: seq<string>, start: Fs, fs: Fs, fs': Fs)
    requires Separate([stage] + targets) && New(start, stage)
    requires Looks(device, stage, targets, [], start, fs) && Effect(Unstage(stage), fs, true, fs')
    ensures fs' == Fs(start.mounts, Made(stage, targets, start))
  {
    assert (start.mounts + [Mount(device, stage)])[..|start.mounts|] == start.mounts;
    assert fs.mounts == start.mounts + [Mount(device, stage)];
    assert stage in [stage] + targets && Under(stage, stage);
    OnlyItself(stage, targets, start, [], stage);
    assert Beneath(fs.paths, stage) == {stage};
  }

  lemma StageIsNoTarget(stage: string, targets: seq<string>, p: string)
    requires Separate([stage] + targets) && p in targets
    ensures p != stage
  {
    var i :| 0 <= i < |targets| && targets[i] == p;
    assert ([stage] + targets)[0] == stage && ([stage] + targets)[i + 1] == p && Under(p, p);
  }

  lemma {:induction false} TargetsOnce(stage: string, targets: seq<string>, p: string)
    requires Separate([stage] + targets) && p in targets
    ensures multiset(targets)[p] == 1
  {
    var i :| 0 <= i < |targets| && targets[i] == p;
    assert targets == targets[..i] + [p] + targets[i + 1..];
    forall j | 0 <= j < |targets| && j != i ensures targets[j] != p {
      assert ([stage] + targets)[j + 1] == targets[j] && ([stage] + targets)[i + 1] == p && Under(p, p);
    }
    assert p !in targets[..i] && p !in targets[i + 1..];
  }

  /** While everything is published, every target shows the staged device. */
  lemma TargetsShowDevice(device: string, stage: string, targets: seq<string>, order: seq<string>, trace: seq<Fs>, p: string)
    requires Lifecycle(device, stage, targets, order, trace) && |trace| > |targets| + 1 && p in targets
    ensures DeviceAt(trace[|targets| + 1].mounts, p) == DeviceAt(trace[|targets| + 1].mounts, stage) == Some(device)
  {
    AfterPublishes(device, stage, targets, order, trace, |targets|);
    assert targets[..|targets|] == targets && p in [stage] + targets && stage in [stage] + targets;
    MountedTargets(device, stage, targets, targets, targets, trace[0], trace[|targets| + 1], p);
    MountedTargets(device, stage, targets, targets, targets, trace[0], trace[|targets| + 1], stage);
  }

  lemma Ends(device: string, stage: string, targets: seq<string>, order: seq<string>, trace: seq<Fs>)
    requires Lifecycle(device, stage, targets, order, trace) && |trace| == |targets| + |order| + 3
    ensures trace[|trace| - 1] == Fs(trace[0].mounts, Made(stage, targets, trace[0]))
  {
    var k := |targets| + |order| + 1;
    var ps := AfterUnpublishes(device, stage, targets, order, trace, |order|);
    assert ps == [] by { assert order[|order|..] == [] && |multiset(ps)| == 0; }
    assert New(trace[0], stage) by { assert stage in [stage] + targets; }
    assert Effect(Unstage(stage), trace[k], true, trace[k + 1]) by {
      assert LifecycleRpcs(device, stage, targets, order)[k] == Unstage(stage);
    }
    UnstageStep(device, stage, targets, trace[0], trace[k], trace[k + 1]);
  }

  /** At the end the mount table is what it was, line by line, and the paths are what they were but for
      the parent directories made on the way, which nobody removes. */
  lemma LifecycleRestores(device: string, stage: string, targets: seq<string>, order: seq<string>, trace: seq<Fs>)
    requires Lifecycle(device, stage, targets, order, trace)
    requires |trace| == |targets| + |order| + 3
    ensures var start, end := trace[0], trace[|trace| - 1];
            && end.mounts == start.mounts
            && end.paths == start.paths + Ancestors(stage) + AllAncestors(targets)
            && (end == start <==> Ancestors(stage) + AllAncestors(targets) <= start.paths)
  {
    Ends(device, stage, targets, order, trace);
  }

  /** What makes an RPC fail although every system call does what it is told. */
  ghost predicate Refused(rpc: Rpc, fs: Fs) {
    match rpc
    case Stage(device, _) => device !in fs.paths
    case Publish(_, _) => false
    case Unpublish(p) => p !in fs.paths
    case Unstage(p) => DeviceName(fs.mounts, p) == ""
  }

  /** Refused is exactly that: otherwise a successful effect exists. */
  lemma RefusedCannotSucceed(rpc: Rpc, fs: Fs)
    ensures Refused(rpc, fs) <==> forall fs' :: !Effect(rpc, fs, true, fs')
  {
    if !Refused(rpc, fs) {
      var p := rpc.path;
      if rpc.Unpublish? || rpc.Unstage? {
        assert Effect(rpc, fs, true, Fs(Unmounted(fs.mounts, p), fs.paths - Beneath(fs.paths, p)));
      } else if Mounted(fs.mounts, p) {
        assert Effect(rpc, fs, true, fs);
      } else {
        var device := if rpc.Stage? then rpc.device else DeviceName(fs.mounts, rpc.source);
        var fs' := Fs(fs.mounts + [Mount(device, p)], WithMountPoint(rpc, fs));
        assert Backs(rpc, fs, device) && MountedNow(rpc, fs, fs');
        assert Effect(rpc, fs, true, fs');
      }
    }
  }

  /** If the device is there, no RPC of the lifecycle is ever refused: only a failing system call keeps
      it from running to its end. */
  lemma LifecycleNeverRefused(device: string, stage: string, targets: seq<string>, order: seq<string>, trace: seq<Fs>)
    requires Lifecycle(device, stage, targets, order, trace) && |trace| <= |targets| + |order| + 2
    requires device in trace[0].paths && device != ""
    ensures !Refused(LifecycleRpcs(device, stage, targets, order)[|trace| - 1], trace[|trace| - 1])
  {
    var rpcs, i := LifecycleRpcs(device, stage, targets, order), |trace| - 1;
    if i == 0 {
      assert rpcs[0] == Stage(device, stage);
    } else if i <= |targets| {
      assert rpcs[i] == Publish(stage, targets[i - 1]);
    } else {
      var k := i - |targets| - 1;
      var ps := AfterUnpublishes(device, stage, targets, order, trace, k);
      if k < |order| {
        assert rpcs[i] == Unpublish(order[k]);
        assert order[k] in multiset(order[k..]) && order[k] in multiset(ps);
      } else {
        assert rpcs[i] == Unstage(stage) && stage in [stage] + targets;
        MountedTargets(device, stage, targets, targets, ps, trace[0], trace[i], stage);
      }
    }
  }
}
