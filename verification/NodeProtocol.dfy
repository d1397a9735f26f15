/** The four mount RPCs of the node as they run: each is a few system calls, any number of RPCs on
    different paths interleave, and any system call may fail. */
module NodeProtocol {
  import opened Results
  import opened MountTable

  datatype Rpc =
    | Stage(device: string, path: string)
    | Publish(source: string, path: string)
    | Unpublish(path: string)
    | Unstage(path: string)

  /** The system call an RPC makes next. */
  datatype Pc = Look | Probe | Mkdir | MountIt | UnmountIt | Remove | Finished(ok: bool)

  function First(rpc: Rpc): Pc { if rpc.Publish? then Probe else Look }

  /** A bind mount shows the device mounted at its source. */
  predicate Backs(rpc: Rpc, fs: Fs, device: string) {
    match rpc
    case Stage(d, _) => device == d
    case Publish(source, _) => DeviceAt(fs.mounts, source) in {None, Some(device)}
    case _ => false
  }

  function AfterProbe(rpc: Rpc, fs: Fs): Pc {
    var mounted := Mounted(fs.mounts, rpc.path);
    match rpc
    case Stage(_, _) => if mounted then Finished(true) else Mkdir
    case Publish(_, p) => if mounted then Finished(true) else if p in fs.paths then MountIt else Mkdir
    case _ => if mounted then UnmountIt else Remove
  }

  function AfterLook(rpc: Rpc, fs: Fs): Pc {
    match rpc
    case Stage(device, _) => if device in fs.paths then Probe else Finished(false)
    case Unpublish(p) => if p in fs.paths then Probe else Finished(false)
    case Unstage(p) => if DeviceName(fs.mounts, p) == "" then Finished(false) else UnmountIt
    case Publish(_, _) => Finished(false)
  }

  /** One system call of an RPC. */
  ghost predicate NodeStep(rpc: Rpc, fs: Fs, pc: Pc, fs': Fs, pc': Pc) {
    var p := rpc.path;
    match pc
    case Look => fs' == fs && pc' in {AfterLook(rpc, fs), Finished(false)}
    case Probe => fs' == fs && pc' in {AfterProbe(rpc, fs), Finished(false)}
    case Mkdir => MkdirOutcome(fs, p, pc' == MountIt, fs') && pc' in {MountIt, Finished(false)}
    case MountIt =>
      pc'.Finished? && exists device :: Backs(rpc, fs, device) && MountOutcome(fs, device, p, pc'.ok, fs')
    case UnmountIt => UnmountOutcome(fs, p, pc' == Remove, fs') && pc' in {Remove, Finished(false)}
    case Remove => pc'.Finished? && RemoveOutcome(fs, p, pc'.ok, fs')
    case Finished(_) => false
  }

  datatype Call = Call(rpc: Rpc, pc: Pc)

  datatype State = State(fs: Fs, calls: seq<Call>)

  /** What can happen next: an RPC begins or makes its next system call, or others use the node. */
  datatype Step =
    | Begin(rpc: Rpc)
    | Advance(id: nat, fs: Fs, pc: Pc)
    | OthersMount(device: string, path: string)
    | OthersUnmount(path: string)
    | OthersChangePaths(paths: set<string>)

  /** The paths handed to the driver: canonical, and none beneath another. */
  ghost predicate Unnested(managed: iset<string>) {
    forall p, q | p in managed && q in managed && Under(p, q) :: p == q
  }

  ghost predicate Enabled(managed: iset<string>, s: State, step: Step) {
    match step
    case Begin(rpc) =>
      rpc.path in managed && forall i | 0 <= i < |s.calls| && s.calls[i].rpc.path == rpc.path :: s.calls[i].pc.Finished?
    case Advance(id, fs', pc') => id < |s.calls| && NodeStep(s.calls[id].rpc, s.fs, s.calls[id].pc, fs', pc')
    case OthersMount(_, q) => forall p | p in managed :: !Under(p, q)
    case OthersUnmount(q) => q !in managed
    case OthersChangePaths(_) => true
  }

  function After(s: State, step: Step): State
    requires step.Advance? ==> step.id < |s.calls|
  {
    match step
    case Begin(rpc) => s.(calls := s.calls + [Call(rpc, First(rpc))])
    case Advance(id, fs', pc') => State(fs', s.calls[id := s.calls[id].(pc := pc')])
    case OthersMount(d, q) => s.(fs := s.fs.(mounts := s.fs.mounts + [Mount(d, q)]))
    case OthersUnmount(q) => s.(fs := s.fs.(mounts := Unmounted(s.fs.mounts, q)))
    case OthersChangePaths(paths) => s.(fs := s.fs.(paths := paths))
  }

  ghost predicate IsRun(managed: iset<string>, s: State, steps: seq<Step>)
    decreases |steps|, 0
  {
    steps == [] ||
    (IsRun(managed, s, steps[..|steps| - 1])
     && Enabled(managed, Final(managed, s, steps[..|steps| - 1]), steps[|steps| - 1]))
  }

  ghost function Final(managed: iset<string>, s: State, steps: seq<Step>): State
    requires IsRun(managed, s, steps)
    decreases |steps|, 1
  {
    if steps == [] then s else After(Final(managed, s, steps[..|steps| - 1]), steps[|steps| - 1])
  }

  /** Others are free: from every state they can take away a mount at any path that is not managed, and
      leave whatever files they like. */
  lemma OthersActFreely(managed: iset<string>, s: State, q: string, paths: set<string>)
    requires q !in managed && Mounted(s.fs.mounts, q)
    ensures var steps := [OthersUnmount(q), OthersChangePaths(paths)];
            && IsRun(managed, s, steps)
            && var t := Final(managed, s, steps);
               t.calls == s.calls && t.fs.paths == paths && Count(t.fs.mounts, q) == Count(s.fs.mounts, q) - 1
  {
    var first, second := OthersUnmount(q), OthersChangePaths(paths);
    assert [first, second][..1] == [first] && [first][..0] == [];
    assert IsRun(managed, s, []) && Final(managed, s, []) == s;
    assert IsRun(managed, s, [first]) && Final(managed, s, [first]) == After(s, first);
    assert Final(managed, s, [first, second]) == After(After(s, first), second);
    UnmountedCounts(s.fs.mounts, q, q);
  }

  /** A managed path carries at most one mount, and nothing is mounted beneath it. */
  ghost predicate CleanAt(ms: seq<Mount>, p: string) {
    Count(ms, p) <= 1 && forall q | Under(p, q) && q != p :: Count(ms, q) == 0
  }

  /** From here on the RPC relies on its path being unmounted. */
  predicate NeedsUnmounted(pc: Pc) { pc in {Mkdir, MountIt, Remove} }

  ghost predicate CallOk(managed: iset<string>, s: State, id: nat)
    requires id < |s.calls|
  {
    && s.calls[id].rpc.path in managed
    && (NeedsUnmounted(s.calls[id].pc) ==> !Mounted(s.fs.mounts, s.calls[id].rpc.path))
  }

  ghost predicate Inv(managed: iset<string>, s: State) {
    && (forall p | p in managed :: CleanAt(s.fs.mounts, p))
    && (forall id | 0 <= id < |s.calls| :: CallOk(managed, s, id))
    && forall i, j | 0 <= i < j < |s.calls| && !s.calls[i].pc.Finished? && !s.calls[j].pc.Finished? ::
         s.calls[i].rpc.path != s.calls[j].rpc.path
  }

  /** A system call changes the mounts of its own path only, and never makes a second one there. */
  lemma StepStaysAtPath(rpc: Rpc, fs: Fs, pc: Pc, fs': Fs, pc': Pc, q: string)
    requires NodeStep(rpc, fs, pc, fs', pc')
    requires Count(fs.mounts, rpc.path) <= 1 && (NeedsUnmounted(pc) ==> !Mounted(fs.mounts, rpc.path))
    ensures q != rpc.path ==> Count(fs'.mounts, q) == Count(fs.mounts, q)
    ensures Count(fs'.mounts, rpc.path) <= 1 && (NeedsUnmounted(pc') ==> !Mounted(fs'.mounts, rpc.path))
  {
    var p := rpc.path;
    if pc == MountIt {
      var device :| Backs(rpc, fs, device) && MountOutcome(fs, device, p, pc'.ok, fs');
      MountCounts(fs.mounts, device, p, p);
      MountCounts(fs.mounts, device, p, q);
    }
    UnmountedCounts(fs.mounts, p, p);
    UnmountedCounts(fs.mounts, p, q);
  }

  /** What others do leaves managed paths alone. */
  lemma OthersStayAway(managed: iset<string>, s: State, step: Step, p: string, q: string)
    requires Enabled(managed, s, step) && p in managed && Under(p, q)
    requires step.OthersMount? || step.OthersUnmount? || step.OthersChangePaths? || step.Begin?
    ensures Count(After(s, step).fs.mounts, q) <= Count(s.fs.mounts, q)
  {
    match step {
      case OthersMount(d, r) => MountCounts(s.fs.mounts, d, r, q);
      case OthersUnmount(r) => UnmountedCounts(s.fs.mounts, r, q);
      case _ =>
    }
  }

  lemma StepKeepsClean(managed: iset<string>, s: State, step: Step, p: string)
    requires Unnested(managed) && Inv(managed, s) && Enabled(managed, s, step) && p in managed
    ensures CleanAt(After(s, step).fs.mounts, p)
  {
    var ms' := After(s, step).fs.mounts;
    if step.Advance? {
      var call := s.calls[step.id];
      assert CallOk(managed, s, step.id) && CleanAt(s.fs.mounts, call.rpc.path);
      forall q | Under(p, q) ensures q == p ==> Count(ms', q) <= 1
        ensures q != p ==> Count(ms', q) == 0
      {
        StepStaysAtPath(call.rpc, s.fs, call.pc, step.fs, step.pc, q);
        assert CleanAt(s.fs.mounts, p);
      }
    } else {
      forall q | Under(p, q) ensures Count(ms', q) <= Count(s.fs.mounts, q) {
        OthersStayAway(managed, s, step, p, q);
      }
    }
  }

  lemma StepKeepsCalls(managed: iset<string>, s: State, step: Step, id: nat)
    requires Unnested(managed) && Inv(managed, s) && Enabled(managed, s, step) && id < |After(s, step).calls|
    ensures CallOk(managed, After(s, step), id)
  {
    if id < |s.calls| {
      assert CallOk(managed, s, id);
      var p := s.calls[id].rpc.path;
      if step.Advance? {
        var call := s.calls[step.id];
        assert CallOk(managed, s, step.id) && CleanAt(s.fs.mounts, call.rpc.path);
        StepStaysAtPath(call.rpc, s.fs, call.pc, step.fs, step.pc, p);
      } else {
        OthersStayAway(managed, s, step, p, p);
      }
    }
  }

  lemma {:induction false} RunKeepsInv(managed: iset<string>, s: State, steps: seq<Step>)
    requires Unnested(managed) && IsRun(managed, s, steps)
    requires s.calls == [] && forall p | p in managed :: CleanAt(s.fs.mounts, p)
    ensures Inv(managed, Final(managed, s, steps))
  {
    if steps != [] {
      var before, step := steps[..|steps| - 1], steps[|steps| - 1];
      RunKeepsInv(managed, s, before);
      var t := Final(managed, s, before);
      forall p | p in managed ensures CleanAt(After(t, step).fs.mounts, p) { StepKeepsClean(managed, t, step, p); }
      forall id | 0 <= id < |After(t, step).calls| ensures CallOk(managed, After(t, step), id) {
        StepKeepsCalls(managed, t, step, id);
      }
    }
  }

  /** In every run, whichever system calls fail and however the RPCs interleave: a managed path never
      carries two mounts, and an RPC about to delete its path recursively finds nothing mounted there
      or beneath. */
  lemma DeletionReachesNoMount(managed: iset<string>, s: State, steps: seq<Step>, id: nat)
    requires Unnested(managed) && IsRun(managed, s, steps)
    requires s.calls == [] && forall p | p in managed :: CleanAt(s.fs.mounts, p)
    requires id < |Final(managed, s, steps).calls|
    ensures var t := Final(managed, s, steps);
            && Count(t.fs.mounts, t.calls[id].rpc.path) <= 1
            && (t.calls[id].pc == Remove ==> Deletable(t.fs.mounts, t.calls[id].rpc.path))
  {
    RunKeepsInv(managed, s, steps);
    var t := Final(managed, s, steps);
    assert CallOk(managed, t, id) && CleanAt(t.fs.mounts, t.calls[id].rpc.path);
  }

  /** One mount and nothing beneath is also what it takes: otherwise the deletion that follows an
      unmount reaches a mounted filesystem. */
  lemma DeletableAfterUnmount(ms: seq<Mount>, p: string)
    requires Mounted(ms, p)
    ensures Deletable(Unmounted(ms, p), p) <==> CleanAt(ms, p)
  {
    forall q { UnmountedCounts(ms, p, q); }
    assert Under(p, p);
  }

  /** RPCs on one path must come one at a time: two publishes that both probe first both mount, and the
      next unpublish then stands ready to delete a mounted path. */
  lemma OverlappingPublishesStack(fs: Fs, source: string, p: string) returns (one: Fs, two: Fs, three: Fs)
    requires p in fs.paths && !Mounted(fs.mounts, p)
    ensures NodeStep(Publish(source, p), fs, Probe, fs, MountIt)
    ensures NodeStep(Publish(source, p), fs, MountIt, one, Finished(true))
    ensures NodeStep(Publish(source, p), one, MountIt, two, Finished(true))
    ensures NodeStep(Unpublish(p), two, Probe, two, UnmountIt) && NodeStep(Unpublish(p), two, UnmountIt, three, Remove)
    ensures !Deletable(three.mounts, p)
  {
    var d := DeviceName(fs.mounts, source);
    one := fs.(mounts := fs.mounts + [Mount(d, p)]);
    assert Backs(Publish(source, p), fs, d) && MountOutcome(fs, d, p, true, one);
    var e := DeviceName(one.mounts, source);
    two := one.(mounts := one.mounts + [Mount(e, p)]);
    assert Backs(Publish(source, p), one, e) && MountOutcome(one, e, p, true, two);
    three := two.(mounts := Unmounted(two.mounts, p));
    MountCounts(fs.mounts, d, p, p);
    MountCounts(one.mounts, e, p, p);
    UnmountedCounts(two.mounts, p, p);
    assert Under(p, p) && Count(three.mounts, p) == 1;
  }
}
