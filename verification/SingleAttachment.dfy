/** "An ironcore volume could only be attached to a single node at any given time": when that is so. */
module SingleAttachment {
  import opened Results
  import opened Attachments
  import opened StrategicMerge
  import opened Clusters
  import opened AttachmentProtocol

  predicate Publishes(call: Call, v: string, m: string) {
    call.publishes && call.volume == v && call.machine == m
  }

  /** A successful unpublish: detached, or the node was found to be gone. */
  predicate Unpublishes(call: Call, v: string, m: string) {
    !call.publishes && call.volume == v && call.machine == m && call.pc in {Done(Unpublished), Done(NodeGone)}
  }

  ghost predicate Attempted(s: State, v: string, m: string) {
    exists i | 0 <= i < |s.calls| :: Publishes(s.calls[i], v, m)
  }

  /** Every publish of v attempted on m, failed ones included, has been followed by a successful unpublish. */
  ghost predicate Released(s: State, v: string, m: string) {
    forall i | 0 <= i < |s.calls| && Publishes(s.calls[i], v, m) ::
      exists j | i < j < |s.calls| :: Unpublishes(s.calls[j], v, m)
  }

  ghost predicate Idle(s: State, v: string) {
    forall i | 0 <= i < |s.calls| && s.calls[i].volume == v :: s.calls[i].pc.Done?
  }

  /** What is asked of the caller: calls for v come one at a time, and, if the caller waits, a publish
      elsewhere comes only when v is released. */
  ghost predicate CarefulCall(s: State, step: Step, v: string, waits: bool) {
    step.Begin? && step.volume == v ==>
      Idle(s, v) && (waits && step.publishes ==> forall n | n != step.machine :: Released(s, v, n))
  }

  ghost predicate CarefulCaller(s: State, steps: seq<Step>, v: string, waits: bool)
    requires IsRun(s, steps)
  {
    steps == [] ||
    (CarefulCaller(s, steps[..|steps| - 1], v, waits)
     && CarefulCall(Final(s, steps[..|steps| - 1]), steps[|steps| - 1], v, waits))
  }

  ghost predicate On(s: State, v: string, m: string) {
    m in s.cluster.machines && Attached(s.cluster.machines[m], v)
  }

  /** No node newly appears whose machine has v on it. */
  ghost predicate JoinsWithout(s: State, step: Step, v: string) {
    step.NodeJoins? && step.node !in s.cluster.nodes ==> !On(s, v, step.node)
  }

  /** What is asked of the nodes. */
  ghost predicate NoLateNode(s: State, steps: seq<Step>, v: string)
    requires IsRun(s, steps)
  {
    steps == [] ||
    (NoLateNode(s, steps[..|steps| - 1], v) && JoinsWithout(Final(s, steps[..|steps| - 1]), steps[|steps| - 1], v))
  }

  ghost predicate OneAtATime(s: State, v: string) {
    forall i, j | 0 <= i < j < |s.calls| && s.calls[i].volume == v && s.calls[j].volume == v :: s.calls[i].pc.Done?
  }

  ghost predicate SingleInv(s: State, v: string) {
    && OneAtATime(s, v)
    && (forall m, n | m != n :: Released(s, v, m) || Released(s, v, n))
    && (forall m | On(s, v, m) :: Attempted(s, v, m) && (m in s.cluster.nodes ==> !Released(s, v, m)))
  }

  /** Calls only change by ending or by making progress; who called whom stays. */
  lemma CallsGrow(s: State, step: Step)
    requires Enabled(s, step)
    ensures var s' := After(s, step);
            |s.calls| <= |s'.calls|
            && forall i | 0 <= i < |s.calls| ::
                 && s'.calls[i].publishes == s.calls[i].publishes && s'.calls[i].machine == s.calls[i].machine
                 && s'.calls[i].volume == s.calls[i].volume
                 && (s.calls[i].pc.Done? ==> s'.calls[i].pc == s.calls[i].pc)
  {}

  /** Only attaching v to m puts it there. */
  lemma OpAttachesOnly(ms: map<string, Attachments>, op: Op, v: string, m: string)
    requires forall n | n in ms :: Tidy(ms[n])
    requires op.AddOp? ==> forall w :: !Attached(op.list, w)
    requires op.EditOp? && op.machine in ms ==> KeepsDriverEntries(ms[op.machine], op.list)
    ensures m in ApplyOp(ms, op) && Attached(ApplyOp(ms, op)[m], v) ==>
              || (m in ms && Attached(ms[m], v))
              || (op.AttachOp? && op.machine == m && op.volume == v)
  {
    var name := AttachmentName(v);
    if m in ms {
      match op {
        case AttachOp(_, _, w) =>
          AttachKeepsOthers(ms[m], w);
          if AttachmentName(w) == name { AttachmentNameInjective(v, w); }
        case DetachOp(_, _, w) => DetachKeepsOthers(ms[m], w);
        case DeviceOp(_, other, d) => SetDeviceKeepsOthers(ms[m], other, d);
        case _ =>
      }
    }
  }

  /** A machine only gains the volume when a publish of it on that machine takes effect. */
  lemma GainedByPublish(s: State, step: Step, v: string, m: string)
    requires Inv(s) && Enabled(s, step)
    ensures On(After(s, step), v, m) && !On(s, v, m) ==>
              && step.Advance? && Publishes(s.calls[step.id], v, m) && !s.calls[step.id].pc.Done?
              && (!After(s, step).calls[step.id].pc.Done? || After(s, step).calls[step.id].pc == Done(Failed))
  {
    StepRefinesOp(s, step);
    var op := StepOp(s, step);
    if op.Some? { OpAttachesOnly(s.cluster.machines, op.value, v, m); }
    if step.Advance? {
      var call := s.calls[step.id];
      assert call in s.calls && CallOk(call);
    }
  }

  /** A successful unpublish leaves its machine without the volume, unless the node is gone. */
  lemma UnpublishTakesOff(s: State, step: Step, v: string, m: string)
    requires Inv(s) && Enabled(s, step) && step.Advance?
    requires !s.calls[step.id].pc.Done? && Unpublishes(After(s, step).calls[step.id], v, m)
    ensures On(After(s, step), v, m) ==> m !in After(s, step).cluster.nodes
  {
    var call := s.calls[step.id];
    assert call in s.calls && CallOk(call);
    CallStepRefinesOp(step.id, call, s.cluster, step.cluster, step.pc, step.acts);
    if step.acts && m in s.cluster.machines {
      DetachKeepsOthers(s.cluster.machines[m], v);
      assert SameEntries(step.cluster.machines[m], Detach(s.cluster.machines[m], v));
    }
  }

  lemma ReleasedStays(s: State, step: Step, v: string, m: string)
    requires Enabled(s, step) && Released(s, v, m)
    requires !(step.Begin? && step.publishes && step.volume == v && step.machine == m)
    ensures Released(After(s, step), v, m)
  {
    CallsGrow(s, step);
    var s' := After(s, step);
    forall i | 0 <= i < |s'.calls| && Publishes(s'.calls[i], v, m)
      ensures exists j | i < j < |s'.calls| :: Unpublishes(s'.calls[j], v, m)
    {
      assert Publishes(s.calls[i], v, m);
      var j :| i < j < |s.calls| && Unpublishes(s.calls[j], v, m);
      assert Unpublishes(s'.calls[j], v, m);
    }
  }

  lemma AttemptedStays(s: State, step: Step, v: string, m: string)
    requires Enabled(s, step) && Attempted(s, v, m)
    ensures Attempted(After(s, step), v, m)
  {
    CallsGrow(s, step);
    var i :| 0 <= i < |s.calls| && Publishes(s.calls[i], v, m);
    assert Publishes(After(s, step).calls[i], v, m);
  }

  /** A machine can only become released by a successful unpublish of v from it. */
  lemma BecomesReleased(s: State, step: Step, v: string, m: string)
    requires Enabled(s, step) && !Released(s, v, m) && Released(After(s, step), v, m)
    ensures step.Advance? && !s.calls[step.id].pc.Done? && Unpublishes(After(s, step).calls[step.id], v, m)
  {
    CallsGrow(s, step);
    var s' := After(s, step);
    var i :| 0 <= i < |s.calls| && Publishes(s.calls[i], v, m) && !exists j | i < j < |s.calls| :: Unpublishes(s.calls[j], v, m);
    assert Publishes(s'.calls[i], v, m);
    var j :| i < j < |s'.calls| && Unpublishes(s'.calls[j], v, m);
  }

  /** While a publish of v is under way, v is not released from its machine. */
  lemma UnderWayNotReleased(s: State, v: string, id: nat)
    requires OneAtATime(s, v) && id < |s.calls| && s.calls[id].volume == v && s.calls[id].publishes && !s.calls[id].pc.Done?
    ensures !Released(s, v, s.calls[id].machine)
  {
    assert Publishes(s.calls[id], v, s.calls[id].machine);
  }

  lemma StepKeepsOneAtATime(s: State, step: Step, v: string)
    requires OneAtATime(s, v) && Enabled(s, step) && CarefulCall(s, step, v, true)
    ensures OneAtATime(After(s, step), v)
  {
    CallsGrow(s, step);
  }

  lemma StepKeepsRivals(s: State, step: Step, v: string, m: string, n: string)
    requires SingleInv(s, v) && Enabled(s, step) && CarefulCall(s, step, v, true) && m != n
    ensures Released(After(s, step), v, m) || Released(After(s, step), v, n)
  {
    if step.Begin? && step.publishes && step.volume == v {
      var other := if step.machine == m then n else m;
      if step.machine == m || step.machine == n {
        ReleasedStays(s, step, v, other);
      } else if Released(s, v, m) {
        ReleasedStays(s, step, v, m);
      } else {
        ReleasedStays(s, step, v, n);
      }
    } else if Released(s, v, m) {
      ReleasedStays(s, step, v, m);
    } else {
      ReleasedStays(s, step, v, n);
    }
  }

  lemma StepKeepsHolder(s: State, step: Step, v: string, m: string)
    requires Inv(s) && SingleInv(s, v) && Enabled(s, step) && On(After(s, step), v, m)
    requires JoinsWithout(s, step, v)
    ensures Attempted(After(s, step), v, m)
    ensures m in After(s, step).cluster.nodes ==> !Released(After(s, step), v, m)
  {
    var s' := After(s, step);
    CallsGrow(s, step);
    if !On(s, v, m) {
      GainedByPublish(s, step, v, m);
      assert Publishes(s.calls[step.id], v, m);
      UnderWayNotReleased(s, v, step.id);
    }
    AttemptedStays(s, step, v, m);
    if m in s'.cluster.nodes && Released(s', v, m) && !Released(s, v, m) {
      BecomesReleased(s, step, v, m);
      UnpublishTakesOff(s, step, v, m);
      assert false;
    }
  }

  lemma {:induction false} RunKeepsSingle(s: State, steps: seq<Step>, v: string)
    requires Initial(s) && IsRun(s, steps) && CarefulCaller(s, steps, v, true) && NoLateNode(s, steps, v)
    requires forall m :: !On(s, v, m)
    ensures SingleInv(Final(s, steps), v)
  {
    if steps != [] {
      var before, step := steps[..|steps| - 1], steps[|steps| - 1];
      RunKeepsSingle(s, before, v);
      RunKeepsInv(s, before);
      var t := Final(s, before);
      StepKeepsOneAtATime(t, step, v);
      forall m, n | m != n ensures Released(After(t, step), v, m) || Released(After(t, step), v, n) {
        StepKeepsRivals(t, step, v, m, n);
      }
      forall m | On(After(t, step), v, m)
        ensures Attempted(After(t, step), v, m) && (m in After(t, step).cluster.nodes ==> !Released(After(t, step), v, m))
      {
        StepKeepsHolder(t, step, v, m);
      }
    }
  }

  /** In every state reached with such a caller and such nodes, v is on at most one machine whose node exists. */
  lemma AtMostOneLiveMachine(s: State, steps: seq<Step>, v: string, m: string, n: string)
    requires Initial(s) && IsRun(s, steps) && CarefulCaller(s, steps, v, true) && NoLateNode(s, steps, v)
    requires forall o :: !On(s, v, o)
    requires On(Final(s, steps), v, m) && m in Final(s, steps).cluster.nodes
    requires On(Final(s, steps), v, n) && n in Final(s, steps).cluster.nodes
    ensures m == n
  {
    RunKeepsSingle(s, steps, v);
  }

  lemma Extend(s: State, steps: seq<Step>, step: Step, v: string, waits: bool)
    requires IsRun(s, steps) && CarefulCaller(s, steps, v, waits)
    requires Enabled(Final(s, steps), step) && CarefulCall(Final(s, steps), step, v, waits)
    ensures IsRun(s, steps + [step]) && CarefulCaller(s, steps + [step], v, waits)
    ensures Final(s, steps + [step]) == After(Final(s, steps), step)
  {
    assert (steps + [step])[..|steps + [step]| - 1] == steps;
  }

  /** A publish of v on m begins and reads the machine, which has no attachments. */
  lemma PublishReads(s: State, steps: seq<Step>, v: string, m: string, waits: bool) returns (longer: seq<Step>)
    requires IsRun(s, steps) && CarefulCaller(s, steps, v, waits)
    requires CarefulCall(Final(s, steps), Begin(true, m, v), v, waits)
    requires m in Final(s, steps).cluster.machines && Final(s, steps).cluster.machines[m] == []
    ensures IsRun(s, longer) && CarefulCaller(s, longer, v, waits)
    ensures forall step | step in longer :: step in steps || step.Begin? || step.Advance?
    ensures var t := Final(s, steps);
            Final(s, longer) == t.(calls := t.calls + [Call(true, m, v, PublishPatch([]), |t.log|, None, None)])
  {
    var t := Final(s, steps);
    var begin, read := Begin(true, m, v), Advance(|t.calls|, t.cluster, PublishPatch([]), false);
    Extend(s, steps, begin, v, waits);
    assert Final(s, steps + [begin]).calls[|t.calls|] == Call(true, m, v, PublishBegin, |t.log|, None, None);
    Extend(s, steps + [begin], read, v, waits);
    longer := steps + [begin] + [read];
  }

  /** Its patch is applied, but the answer is lost. */
  lemma PatchApplies(t: State, v: string, m: string, begin: nat) returns (patch: Step)
    requires |t.calls| > 0 && t.calls[|t.calls| - 1] == Call(true, m, v, PublishPatch([]), begin, None, None)
    requires m in t.cluster.machines && t.cluster.machines[m] == []
    ensures patch.Advance? && Enabled(t, patch)
    ensures After(t, patch).cluster == t.cluster.(machines := t.cluster.machines[m := [Fresh(v)]])
    ensures After(t, patch).calls == t.calls[..|t.calls| - 1] + [
              Call(true, m, v, Done(Failed), begin, Some(|t.log|), Some(|t.log| + 1))]
  {
    var id := |t.calls| - 1;
    var c' := t.cluster.(machines := t.cluster.machines[m := [Fresh(v)]]);
    assert CallStep(m, v, t.cluster, PublishPatch([]), c', Done(Failed), true) by { UncontestedPatch([], [Fresh(v)]); }
    patch := Advance(id, c', Done(Failed), true);
  }

  /** One publish of v on m that fails after its patch. */
  lemma PublishFails(s: State, steps: seq<Step>, v: string, m: string, waits: bool) returns (longer: seq<Step>)
    requires IsRun(s, steps) && CarefulCaller(s, steps, v, waits)
    requires CarefulCall(Final(s, steps), Begin(true, m, v), v, waits)
    requires m in Final(s, steps).cluster.machines && Final(s, steps).cluster.machines[m] == []
    ensures IsRun(s, longer) && CarefulCaller(s, longer, v, waits)
    ensures forall step | step in longer :: step in steps || step.Begin? || step.Advance?
    ensures var t, t' := Final(s, steps), Final(s, longer);
            && t'.cluster == t.cluster.(machines := t.cluster.machines[m := [Fresh(v)]])
            && t'.calls == t.calls + [Call(true, m, v, Done(Failed), |t.log|, Some(|t.log|), Some(|t.log| + 1))]
  {
    var read := PublishReads(s, steps, v, m, waits);
    var patch := PatchApplies(Final(s, read), v, m, |Final(s, steps).log|);
    Extend(s, read, patch, v, waits);
    longer := read + [patch];
  }

  /** What v's volume looks like when it can be handed out, and its attachment once it has its device. */
  const AVAILABLE := Volume(Some(1), "fast", Available, Some(Access("handle", true)))

  function WithDevice(v: string): Attachments { [Attachment(AttachmentName(v), v, Some("vdb"))] }

  /** The machine controller gives the attachment its device, and the publish is begun again. */
  lemma PublishAgain(s: State, steps: seq<Step>, v: string, m: string, waits: bool) returns (longer: seq<Step>)
    requires IsRun(s, steps) && CarefulCaller(s, steps, v, waits)
    requires CarefulCall(Final(s, steps), Begin(true, m, v), v, waits)
    requires m in Final(s, steps).cluster.machines && Final(s, steps).cluster.machines[m] == [Fresh(v)]
    ensures IsRun(s, longer) && CarefulCaller(s, longer, v, waits)
    ensures forall step | step in longer :: step in steps || step.Begin? || step.AssignDevice?
    ensures var t, t' := Final(s, steps), Final(s, longer);
            && t'.cluster == t.cluster.(machines := t.cluster.machines[m := WithDevice(v)])
            && t'.calls == t.calls + [Call(true, m, v, PublishBegin, |t'.log|, None, None)]
  {
    var device, begin := AssignDevice(m, AttachmentName(v), "vdb"), Begin(true, m, v);
    assert SetDevice([Fresh(v)], AttachmentName(v), "vdb") == WithDevice(v);
    Extend(s, steps, device, v, waits);
    SameCallsSameCare(Final(s, steps), Final(s, steps + [device]), begin, v, waits);
    Extend(s, steps + [device], begin, v, waits);
    longer := steps + [device] + [begin];
  }

  lemma SameCallsSameCare(s: State, t: State, step: Step, v: string, waits: bool)
    requires s.calls == t.calls && CarefulCall(s, step, v, waits)
    ensures CarefulCall(t, step, v, waits)
  {
    assert Idle(s, v) == Idle(t, v);
    forall n ensures Released(s, v, n) == Released(t, v, n) {}
  }

  /** It finds its attachment made, and returns the device path. */
  lemma ReturnSteps(t: State, v: string, m: string) returns (read: Step, check: Step)
    requires |t.calls| > 0 && t.calls[|t.calls| - 1] == Call(true, m, v, PublishBegin, |t.log|, None, None)
    requires m in t.cluster.machines && t.cluster.machines[m] == WithDevice(v)
    requires v in t.cluster.volumes && t.cluster.volumes[v] == AVAILABLE
    ensures read.Advance? && Enabled(t, read) && check.Advance? && Enabled(After(t, read), check)
    ensures var t' := After(After(t, read), check);
            && t'.cluster == t.cluster
            && t'.calls == t.calls[..|t.calls| - 1] + [Call(true, m, v, Done(Published(DevicePath("vdb", "handle"))),
                                                            |t.log|, Some(|t.log|), Some(|t.log| + 1))]
  {
    var id := |t.calls| - 1;
    var path := DevicePath("vdb", "handle");
    RetryReturns(t.cluster, v, m, path);
    read := Advance(id, t.cluster, PublishCheck(WithDevice(v)), true);
    check := Advance(id, t.cluster, Done(Published(path)), false);
    assert After(t, read).calls[id] == Call(true, m, v, PublishCheck(WithDevice(v)), |t.log|, Some(|t.log|), None);
  }

  lemma PublishReturns(s: State, steps: seq<Step>, v: string, m: string, waits: bool) returns (longer: seq<Step>)
    requires IsRun(s, steps) && CarefulCaller(s, steps, v, waits)
    requires var t := Final(s, steps);
             && |t.calls| > 0 && t.calls[|t.calls| - 1] == Call(true, m, v, PublishBegin, |t.log|, None, None)
             && m in t.cluster.machines && t.cluster.machines[m] == WithDevice(v)
             && v in t.cluster.volumes && t.cluster.volumes[v] == AVAILABLE
    ensures IsRun(s, longer) && CarefulCaller(s, longer, v, waits)
    ensures forall step | step in longer :: step in steps || step.Advance?
    ensures var t, t' := Final(s, steps), Final(s, longer);
            && t'.cluster == t.cluster
            && t'.calls == t.calls[..|t.calls| - 1] + [Call(true, m, v, Done(Published(DevicePath("vdb", "handle"))),
                                                            |t.log|, Some(|t.log|), Some(|t.log| + 1))]
  {
    var read, check := ReturnSteps(Final(s, steps), v, m);
    Extend(s, steps, read, v, waits);
    Extend(s, steps + [read], check, v, waits);
    longer := steps + [read] + [check];
  }

  lemma RetryReturns(c: Cluster, v: string, m: string, path: string)
    requires m in c.machines && c.machines[m] == WithDevice(v) && v in c.volumes && c.volumes[v] == AVAILABLE
    requires path == DevicePath("vdb", "handle")
    ensures CallStep(m, v, c, PublishBegin, c, PublishCheck(WithDevice(v)), true)
    ensures CallStep(m, v, c, PublishCheck(WithDevice(v)), c, Done(Published(path)), false)
  {
    assert FindDevice(WithDevice(v), AttachmentName(v)) == "vdb";
  }

  /** A publish whose first attempt fails and whose second begins. */
  lemma PublishRetried(s: State, steps: seq<Step>, v: string, m: string, waits: bool) returns (longer: seq<Step>)
    requires IsRun(s, steps) && CarefulCaller(s, steps, v, waits)
    requires CarefulCall(Final(s, steps), Begin(true, m, v), v, waits)
    requires var c := Final(s, steps).cluster; m in c.machines && c.machines[m] == []
    ensures IsRun(s, longer) && CarefulCaller(s, longer, v, waits)
    ensures forall step | step in longer :: step in steps || step.Begin? || step.Advance? || step.AssignDevice?
    ensures var t, t' := Final(s, steps), Final(s, longer);
            && t'.cluster == t.cluster.(machines := t.cluster.machines[m := WithDevice(v)])
            && t'.calls == t.calls + [Call(true, m, v, Done(Failed), |t.log|, Some(|t.log|), Some(|t.log| + 1)),
                                      Call(true, m, v, PublishBegin, |t'.log|, None, None)]
  {
    var failed := PublishFails(s, steps, v, m, waits);
    assert CarefulCall(Final(s, failed), Begin(true, m, v), v, waits) by {
      StillCareful(Final(s, steps), Final(s, failed), v, m, waits);
    }
    longer := PublishAgain(s, failed, v, m, waits);
  }

  /** A publish whose first attempt fails, and whose second returns the device path. */
  lemma PublishCompletes(s: State, steps: seq<Step>, v: string, m: string, waits: bool) returns (longer: seq<Step>)
    requires IsRun(s, steps) && CarefulCaller(s, steps, v, waits)
    requires CarefulCall(Final(s, steps), Begin(true, m, v), v, waits)
    requires var c := Final(s, steps).cluster;
             m in c.machines && c.machines[m] == [] && v in c.volumes && c.volumes[v] == AVAILABLE
    ensures IsRun(s, longer) && CarefulCaller(s, longer, v, waits)
    ensures forall step | step in longer :: step in steps || step.Begin? || step.Advance? || step.AssignDevice?
    ensures var t, t' := Final(s, steps), Final(s, longer);
            && t'.cluster == t.cluster.(machines := t.cluster.machines[m := WithDevice(v)])
            && Idle(t', v) && |t'.calls| == |t.calls| + 2 && t'.calls[..|t.calls|] == t.calls
            && Publishes(t'.calls[|t.calls| + 1], v, m)
            && t'.calls[|t.calls| + 1].pc == Done(Published(DevicePath("vdb", "handle")))
  {
    var retried := PublishRetried(s, steps, v, m, waits);
    longer := PublishReturns(s, retried, v, m, waits);
    StillIdle(Final(s, steps), Final(s, longer), v);
  }

  lemma StillIdle(t: State, t': State, v: string)
    requires Idle(t, v) && |t'.calls| == |t.calls| + 2 && t'.calls[..|t.calls|] == t.calls
    requires t'.calls[|t.calls|].pc.Done? && t'.calls[|t.calls| + 1].pc.Done?
    ensures Idle(t', v)
  {
    assert forall i | 0 <= i < |t.calls| :: t'.calls[i] == t.calls[i];
  }

  lemma StillCareful(t: State, t': State, v: string, m: string, waits: bool)
    requires CarefulCall(t, Begin(true, m, v), v, waits)
    requires |t'.calls| == |t.calls| + 1 && t'.calls[..|t.calls|] == t.calls
    requires Publishes(t'.calls[|t.calls|], v, m) && t'.calls[|t.calls|].pc.Done?
    ensures CarefulCall(t', Begin(true, m, v), v, waits)
  {
    assert forall i | 0 <= i < |t.calls| :: t'.calls[i] == t.calls[i];
    if waits {
      forall n | n != m ensures Released(t', v, n) {
        assert Released(t, v, n);
        forall i | 0 <= i < |t'.calls| && Publishes(t'.calls[i], v, n)
          ensures exists j | i < j < |t'.calls| :: Unpublishes(t'.calls[j], v, n)
        {
          assert Publishes(t.calls[i], v, n);
          var j :| i < j < |t.calls| && Unpublishes(t.calls[j], v, n);
          assert Unpublishes(t'.calls[j], v, n);
        }
      }
    }
  }

  /** v becomes available and is published on one of two machines. */
  lemma PublishedOnce() returns (s: State, steps: seq<Step>)
    ensures Initial(s) && IsRun(s, steps) && CarefulCaller(s, steps, "v", false) && forall m :: !On(s, "v", m)
    ensures forall step | step in steps :: step.Begin? || step.Advance? || step.AssignDevice? || step.ChangeVolume?
    ensures var t := Final(s, steps);
            && t.cluster == Cluster(map["a" := WithDevice("v"), "b" := []], map["v" := AVAILABLE], {"a", "b"})
            && Idle(t, "v") && |t.calls| == 2
            && Publishes(t.calls[1], "v", "a") && t.calls[1].pc == Done(Published(DevicePath("vdb", "handle")))
  {
    var machines: map<string, Attachments> := map["a" := [], "b" := []];
    s := State(machines, Cluster(machines, map[], {"a", "b"}), [], []);
    var provided := ChangeVolume("v", Some(AVAILABLE));
    Extend(s, [], provided, "v", false);
    assert Final(s, [] + [provided]) == s.(cluster := Cluster(machines, map["v" := AVAILABLE], {"a", "b"}));
    steps := PublishCompletes(s, [] + [provided], "v", "a", false);
  }

  /** Without the wait the claim fails: two publishes, one after the other, both answered with a device
      path. */
  lemma CarelessCallerAttachesTwice() returns (s: State, steps: seq<Step>)
    ensures Initial(s) && IsRun(s, steps) && CarefulCaller(s, steps, "v", false) && forall m :: !On(s, "v", m)
    ensures forall step | step in steps :: step.Begin? || step.Advance? || step.AssignDevice? || step.ChangeVolume?
    ensures var t := Final(s, steps);
            && On(t, "v", "a") && On(t, "v", "b") && "a" in t.cluster.nodes && "b" in t.cluster.nodes
            && Idle(t, "v") && |t.calls| == 4
            && Publishes(t.calls[1], "v", "a") && t.calls[1].pc == Done(Published(DevicePath("vdb", "handle")))
            && Publishes(t.calls[3], "v", "b") && t.calls[3].pc == Done(Published(DevicePath("vdb", "handle")))
  {
    var once;
    s, once := PublishedOnce();
    steps := PublishCompletes(s, once, "v", "b", false);
    var t, t' := Final(s, once), Final(s, steps);
    assert t'.calls[1] == t'.calls[..|t.calls|][1] == t.calls[1];
  }

  /** Unpublishing answers success when the node is not there, whatever is attached to the machine. */
  lemma UnpublishFromMissingNode(s: State, steps: seq<Step>, v: string, m: string) returns (longer: seq<Step>)
    requires IsRun(s, steps) && CarefulCaller(s, steps, v, true) && Idle(Final(s, steps), v)
    requires m !in Final(s, steps).cluster.nodes
    ensures IsRun(s, longer) && CarefulCaller(s, longer, v, true)
    ensures (forall step | step in longer :: step in steps || step.Begin? || step.Advance?)
    ensures var t, t' := Final(s, steps), Final(s, longer);
            && t'.cluster == t.cluster
            && t'.calls == t.calls + [Call(false, m, v, Done(NodeGone), |t.log|, None, Some(|t.log|))]
  {
    var t := Final(s, steps);
    Extend(s, steps, Begin(false, m, v), v, true);
    var gone := Advance(|t.calls|, t.cluster, Done(NodeGone), false);
    Extend(s, steps + [Begin(false, m, v)], gone, v, true);
    longer := steps + [Begin(false, m, v)] + [gone];
  }

  lemma NoPublishElsewhere(t: State)
    requires |t.calls| == 2 && Publishes(t.calls[0], "v", "a") && t.calls[0].pc.Done? && Unpublishes(t.calls[1], "v", "a")
    ensures CarefulCall(t, Begin(true, "b", "v"), "v", true)
  {}

  /** A publish on the machine of a missing node that fails after its patch, and the unpublish after it,
      leave the attachment behind, although the caller may now publish elsewhere. */
  lemma LeftBehind() returns (s: State, steps: seq<Step>)
    ensures Initial(s) && IsRun(s, steps) && CarefulCaller(s, steps, "v", true) && forall m :: !On(s, "v", m)
    ensures forall step | step in steps :: step.Begin? || step.Advance?
    ensures var t := Final(s, steps);
            && t.cluster == Cluster(map["a" := [Fresh("v")], "b" := []], map["v" := AVAILABLE], {"b"})
            && CarefulCall(t, Begin(true, "b", "v"), "v", true)
  {
    var machines: map<string, Attachments> := map["a" := [], "b" := []];
    s := State(machines, Cluster(machines, map["v" := AVAILABLE], {"b"}), [], []);
    var one := PublishFails(s, [], "v", "a", true);
    assert Final(s, one).cluster == Cluster(map["a" := [Fresh("v")], "b" := []], map["v" := AVAILABLE], {"b"});
    assert Final(s, one).calls == [Call(true, "a", "v", Done(Failed), 0, Some(0), Some(1))];
    steps := UnpublishFromMissingNode(s, one, "v", "a");
    assert CarefulCall(Final(s, steps), Begin(true, "b", "v"), "v", true) by { NoPublishElsewhere(Final(s, steps)); }
  }

  /** The caller's care is not enough even if no node ever leaves: the attachment left behind on the
      machine of a node that is not there yet becomes live when the node joins. */
  lemma LateNodeAttachesTwice() returns (s: State, steps: seq<Step>)
    ensures Initial(s) && IsRun(s, steps) && CarefulCaller(s, steps, "v", true) && forall m :: !On(s, "v", m)
    ensures forall step | step in steps :: !step.NodeLeaves?
    ensures var t := Final(s, steps);
            && On(t, "v", "a") && On(t, "v", "b") && "a" in t.cluster.nodes && "b" in t.cluster.nodes
            && Idle(t, "v")
  {
    var before;
    s, before := LeftBehind();
    var both := PublishCompletes(s, before, "v", "b", true);
    Extend(s, both, NodeJoins("a"), "v", true);
    steps := both + [NodeJoins("a")];
  }
}
