/** ControllerPublishVolume and ControllerUnpublishVolume as they run against the API servers: each
    call is a few separate requests, any number of calls interleave, and any request may fail. */
module AttachmentProtocol {
  import opened Results
  import opened Attachments
  import opened StrategicMerge
  import opened Clusters

  datatype Outcome = Published(devicePath: string) | Unpublished | NodeGone | Failed

  /** Where a call stands between two requests. A base is the list the call has read and edited;
      seen is the list it holds after its read or patch. */
  datatype Pc =
    | PublishBegin
    | PublishPatch(base: Attachments)
    | PublishCheck(seen: Attachments)
    | UnpublishBegin
    | UnpublishGet
    | UnpublishPatch(base: Attachments)
    | Done(outcome: Outcome)

  /** One request of a call for volume v on machine m. acts marks the request at which the call takes
      effect on the machine: its patch, or its read when there is nothing to patch. A patch may be
      applied although its answer is lost; every request may fail. */
  ghost predicate CallStep(m: string, v: string, c: Cluster, pc: Pc, c': Cluster, pc': Pc, acts: bool) {
    || (!pc.Done? && c' == c && pc' == Done(Failed) && !acts)
    || match pc {
       case PublishBegin =>
         && c' == c && m in c.machines
         && (if VolumeAttachmentIndex(c.machines[m], AttachmentName(v)) < 0
             then pc' == PublishPatch(c.machines[m]) && !acts
             else pc' == PublishCheck(c.machines[m]) && acts)
       case PublishPatch(base) =>
         && m in c.machines && m in c'.machines && c' == c.(machines := c.machines[m := c'.machines[m]])
         && PatchOutcome(base, Attach(base, v), c.machines[m], c'.machines[m])
         && (pc' == PublishCheck(c'.machines[m]) || pc' == Done(Failed)) && acts
       case PublishCheck(seen) =>
         && c' == c && v in c.volumes && c.volumes[v].state == Available
         && ValidateDeviceName(c.volumes[v], seen, AttachmentName(v)).Success?
         && pc' == Done(Published(ValidateDeviceName(c.volumes[v], seen, AttachmentName(v)).value)) && !acts
       case UnpublishBegin =>
         && c' == c && pc' == (if m in c.nodes then UnpublishGet else Done(NodeGone)) && !acts
       case UnpublishGet =>
         && c' == c && m in c.machines
         && (if VolumeAttachmentIndex(c.machines[m], AttachmentName(v)) >= 0
             then pc' == UnpublishPatch(c.machines[m]) && !acts
             else pc' == Done(Unpublished) && acts)
       case UnpublishPatch(base) =>
         && m in c.machines && m in c'.machines && c' == c.(machines := c.machines[m := c'.machines[m]])
         && PatchOutcome(base, Detach(base, v), c.machines[m], c'.machines[m])
         && (pc' == Done(Unpublished) || pc' == Done(Failed)) && acts
       case Done(_) => false
    }
  }

  /** An atomic operation on the machines. */
  datatype Op =
    | AttachOp(call: nat, machine: string, volume: string)
    | DetachOp(call: nat, machine: string, volume: string)
    | DeviceOp(machine: string, name: string, device: string)
    | AddOp(machine: string, list: Attachments)
    | RemoveOp(machine: string)
    | EditOp(machine: string, list: Attachments)

  function ApplyOp(ms: map<string, Attachments>, op: Op): map<string, Attachments> {
    match op
    case AttachOp(_, m, v) => if m in ms then ms[m := Attach(ms[m], v)] else ms
    case DetachOp(_, m, v) => if m in ms then ms[m := Detach(ms[m], v)] else ms
    case DeviceOp(m, name, d) => if m in ms then ms[m := SetDevice(ms[m], name, d)] else ms
    case AddOp(m, list) => ms[m := list]
    case RemoveOp(m) => ms - {m}
    case EditOp(m, list) => if m in ms then ms[m := list] else ms
  }

  /** Other clients leave the driver's own entries as they are. */
  ghost predicate KeepsDriverEntries(vs: Attachments, ws: Attachments) {
    forall v :: Entry(ws, AttachmentName(v)) == Entry(vs, AttachmentName(v))
  }

  /** The atomic run: one operation after the other. */
  function Replay(initial: map<string, Attachments>, log: seq<Op>): map<string, Attachments> {
    if log == [] then initial else ApplyOp(Replay(initial, log[..|log| - 1]), log[|log| - 1])
  }

  /** begin and end are the lengths of the log when the call begins and ends, point is the position
      of the call's own operation in the log. */
  datatype Call = Call(publishes: bool, machine: string, volume: string, pc: Pc,
                       begin: nat, point: Option<nat>, end: Option<nat>)

  datatype State = State(initial: map<string, Attachments>, cluster: Cluster, calls: seq<Call>, log: seq<Op>)

  /** What can happen next: a call begins or makes its next request, or the environment moves. */
  datatype Step =
    | Begin(publishes: bool, machine: string, volume: string)
    | Advance(id: nat, cluster: Cluster, pc: Pc, acts: bool)
    | AssignDevice(machine: string, name: string, device: string)
    | ChangeVolume(volume: string, value: Option<Volume>)
    | NodeLeaves(node: string)
    | NodeJoins(node: string)
    | AddMachine(machine: string, list: Attachments)
    | RemoveMachine(machine: string)
    | OthersEdit(machine: string, list: Attachments)

  ghost predicate Enabled(s: State, step: Step) {
    match step
    case Advance(id, c', pc', acts) =>
      id < |s.calls| && CallStep(s.calls[id].machine, s.calls[id].volume, s.cluster, s.calls[id].pc, c', pc', acts)
    case AddMachine(m, list) => m !in s.cluster.machines && Tidy(list) && forall v :: !Attached(list, v)
    case OthersEdit(m, list) =>
      m in s.cluster.machines && Tidy(list) && KeepsDriverEntries(s.cluster.machines[m], list)
    case _ => true
  }

  function OpOf(id: nat, call: Call): Op {
    if call.publishes then AttachOp(id, call.machine, call.volume) else DetachOp(id, call.machine, call.volume)
  }

  /** The operation a step performs on the machines, if any. */
  function StepOp(s: State, step: Step): Option<Op>
    requires step.Advance? ==> step.id < |s.calls|
  {
    match step
    case Advance(id, _, _, acts) => if acts then Some(OpOf(id, s.calls[id])) else None
    case AssignDevice(m, name, d) => Some(DeviceOp(m, name, d))
    case AddMachine(m, list) => Some(AddOp(m, list))
    case RemoveMachine(m) => Some(RemoveOp(m))
    case OthersEdit(m, list) => Some(EditOp(m, list))
    case _ => None
  }

  function AfterLog(s: State, step: Step): seq<Op>
    requires step.Advance? ==> step.id < |s.calls|
  {
    if StepOp(s, step).Some? then s.log + [StepOp(s, step).value] else s.log
  }

  function AfterCluster(s: State, step: Step): Cluster {
    var c := s.cluster;
    match step
    case Begin(_, _, _) => c
    case Advance(_, c', _, _) => c'
    case AssignDevice(m, name, d) => c.(machines := ApplyOp(c.machines, DeviceOp(m, name, d)))
    case ChangeVolume(v, None) => c.(volumes := c.volumes - {v})
    case ChangeVolume(v, Some(volume)) => c.(volumes := c.volumes[v := volume])
    case NodeLeaves(n) => c.(nodes := c.nodes - {n})
    case NodeJoins(n) => c.(nodes := c.nodes + {n})
    case AddMachine(m, list) => c.(machines := c.machines[m := list])
    case RemoveMachine(m) => c.(machines := c.machines - {m})
    case OthersEdit(m, list) => c.(machines := c.machines[m := list])
  }

  function AfterCalls(s: State, step: Step): seq<Call>
    requires step.Advance? ==> step.id < |s.calls|
  {
    match step
    case Begin(publishes, m, v) =>
      s.calls + [Call(publishes, m, v, if publishes then PublishBegin else UnpublishBegin, |s.log|, None, None)]
    case Advance(id, _, pc', acts) =>
      s.calls[id := s.calls[id].(
        pc := pc',
        point := if acts then Some(|s.log|) else s.calls[id].point,
        end := if pc'.Done? then Some(|AfterLog(s, step)|) else None)]
    case _ => s.calls
  }

  function After(s: State, step: Step): State
    requires step.Advance? ==> step.id < |s.calls|
  {
    State(s.initial, AfterCluster(s, step), AfterCalls(s, step), AfterLog(s, step))
  }

  /** A run is any sequence of enabled steps. */
  ghost predicate IsRun(s: State, steps: seq<Step>)
    decreases |steps|, 0
  {
    steps == [] || (IsRun(s, steps[..|steps| - 1]) && Enabled(Final(s, steps[..|steps| - 1]), steps[|steps| - 1]))
  }

  ghost function Final(s: State, steps: seq<Step>): State
    requires IsRun(s, steps)
    decreases |steps|, 1
  {
    if steps == [] then s else After(Final(s, steps[..|steps| - 1]), steps[|steps| - 1])
  }

  ghost predicate Initial(s: State) {
    && s.calls == [] && s.log == [] && s.initial == s.cluster.machines
    && forall m | m in s.initial :: Tidy(s.initial[m])
  }

  /** Same machines, each with the same entries. */
  ghost predicate SameMachines(ms: map<string, Attachments>, ns: map<string, Attachments>) {
    ms.Keys == ns.Keys && forall m | m in ms :: SameEntries(ms[m], ns[m])
  }

  lemma OpRespectsSameMachines(ms: map<string, Attachments>, ns: map<string, Attachments>, op: Op)
    requires SameMachines(ms, ns)
    requires op.AddOp? || op.EditOp? ==> Tidy(op.list)
    ensures SameMachines(ApplyOp(ms, op), ApplyOp(ns, op))
  {
    match op {
      case AttachOp(_, m, v) => if m in ms { AttachRespectsSameEntries(ms[m], ns[m], v); }
      case DetachOp(_, m, v) => if m in ms { DetachRespectsSameEntries(ms[m], ns[m], v); }
      case DeviceOp(m, name, d) => if m in ms { SetDeviceRespectsSameEntries(ms[m], ns[m], name, d); }
      case _ =>
    }
  }

  /** A call's program counter fits the call, and a list waiting to be patched is tidy and needs it. */
  ghost predicate CallOk(call: Call) {
    match call.pc
    case PublishBegin => call.publishes
    case PublishPatch(base) => call.publishes && Tidy(base) && !Attached(base, call.volume)
    case PublishCheck(seen) => call.publishes && Tidy(seen)
    case UnpublishBegin => !call.publishes
    case UnpublishGet => !call.publishes
    case UnpublishPatch(base) => !call.publishes && Tidy(base) && Attached(base, call.volume)
    case Done(Published(_)) => call.publishes
    case Done(Failed) => true
    case Done(_) => !call.publishes
  }

  ghost predicate ListsOk(s: State) {
    && (forall m | m in s.cluster.machines :: Tidy(s.cluster.machines[m]))
    && forall call | call in s.calls :: CallOk(call)
  }

  lemma SameMachinesRefl(ms: map<string, Attachments>)
    requires forall m | m in ms :: Tidy(ms[m])
    ensures SameMachines(ms, ms)
  {}

  /** What one request does to the machines is exactly what the atomic operation would do. */
  lemma CallStepRefinesOp(id: nat, call: Call, c: Cluster, c': Cluster, pc': Pc, acts: bool)
    requires CallOk(call) && CallStep(call.machine, call.volume, c, call.pc, c', pc', acts)
    requires forall m | m in c.machines :: Tidy(c.machines[m])
    ensures CallOk(call.(pc := pc'))
    ensures SameMachines(c'.machines, if acts then ApplyOp(c.machines, OpOf(id, call)) else c.machines)
    ensures pc'.PublishCheck? ==> call.machine in c'.machines && c'.machines[call.machine] == pc'.seen
  {
    var m, v := call.machine, call.volume;
    if call.pc.PublishPatch? && acts {
      PatchedMachines(c, c', m, Attach(c.machines[m], v)) by {
        PublishPatchMerges(call.pc.base, c.machines[m], c.machines[m], c'.machines[m], v);
      }
    } else if call.pc.UnpublishPatch? && acts {
      PatchedMachines(c, c', m, Detach(c.machines[m], v)) by {
        UnpublishPatchMerges(call.pc.base, c.machines[m], c.machines[m], c'.machines[m], v);
      }
    } else {
      SameMachinesRefl(c.machines);
      if m in c.machines { IndexFindsFirst(c.machines[m], AttachmentName(v)); }
    }
  }

  lemma PatchedMachines(c: Cluster, c': Cluster, m: string, expected: Attachments)
    requires forall n | n in c.machines :: Tidy(c.machines[n])
    requires m in c.machines && m in c'.machines && c'.machines == c.machines[m := c'.machines[m]]
    requires SameEntries(c'.machines[m], expected)
    ensures SameMachines(c'.machines, c.machines[m := expected])
  {
    forall n | n in c.machines ensures SameEntries(c'.machines[n], c.machines[m := expected][n]) {}
  }

  lemma StepRefinesOp(s: State, step: Step)
    requires ListsOk(s) && Enabled(s, step)
    ensures ListsOk(After(s, step))
    ensures var op := StepOp(s, step);
            SameMachines(After(s, step).cluster.machines,
                         if op.Some? then ApplyOp(s.cluster.machines, op.value) else s.cluster.machines)
  {
    SameMachinesRefl(s.cluster.machines);
    match step {
      case Advance(id, c', pc', acts) =>
        var call := s.calls[id];
        assert call in s.calls;
        CallStepRefinesOp(id, call, s.cluster, c', pc', acts);
      case AssignDevice(m, name, d) =>
        if m in s.cluster.machines { SetDeviceKeepsOthers(s.cluster.machines[m], name, d); }
        SameMachinesRefl(ApplyOp(s.cluster.machines, DeviceOp(m, name, d)));
      case AddMachine(m, list) =>
        SameMachinesRefl(s.cluster.machines[m := list]);
      case OthersEdit(m, list) =>
        SameMachinesRefl(s.cluster.machines[m := list]);
      case _ =>
    }
  }

  /** The machines are what the atomic run of the log makes of the initial ones. */
  ghost predicate AtomicOk(s: State) {
    SameMachines(s.cluster.machines, Replay(s.initial, s.log))
  }

  lemma SameMachinesTrans(ms: map<string, Attachments>, ns: map<string, Attachments>, os: map<string, Attachments>)
    requires SameMachines(ms, ns) && SameMachines(ns, os)
    ensures SameMachines(ms, os)
  {
    forall m | m in ms ensures SameEntries(ms[m], os[m]) {
      assert forall n :: Entry(ms[m], n) == Entry(ns[m], n) == Entry(os[m], n);
    }
  }

  lemma StepKeepsAtomic(s: State, step: Step)
    requires ListsOk(s) && AtomicOk(s) && Enabled(s, step)
    ensures AtomicOk(After(s, step))
  {
    StepRefinesOp(s, step);
    var s' := After(s, step);
    var before := Replay(s.initial, s.log);
    if StepOp(s, step).Some? {
      var op := StepOp(s, step).value;
      assert s'.log[..|s'.log| - 1] == s.log;
      OpRespectsSameMachines(s.cluster.machines, before, op);
      SameMachinesTrans(s'.cluster.machines, ApplyOp(s.cluster.machines, op), ApplyOp(before, op));
    } else {
      SameMachinesTrans(s'.cluster.machines, s.cluster.machines, before);
    }
  }

  /** Calls and log agree: a call that has taken effect owns one position, between its begin and its
      end, and every attach or detach in the log is owned by such a call. */
  ghost predicate CallLogged(s: State, id: nat)
    requires id < |s.calls|
  {
    var call := s.calls[id];
    && call.begin <= |s.log|
    && (call.end.Some? <==> call.pc.Done?)
    && (call.end.Some? ==> call.begin <= call.end.value <= |s.log|)
    && (call.point.Some? ==>
          && call.begin <= call.point.value < (if call.end.Some? then call.end.value else |s.log|)
          && s.log[call.point.value] == OpOf(id, call))
    && (match call.pc
        case PublishCheck(_) => call.point.Some?
        case Done(Published(_)) => call.point.Some?
        case Done(Unpublished) => call.point.Some?
        case Done(Failed) => true
        case _ => call.point.None?)
  }

  ghost predicate OpOwned(s: State, k: nat)
    requires k < |s.log|
  {
    s.log[k].AttachOp? || s.log[k].DetachOp? ==>
      s.log[k].call < |s.calls| && s.calls[s.log[k].call].point == Some(k)
  }

  ghost predicate LogOk(s: State) {
    && (forall id | 0 <= id < |s.calls| :: CallLogged(s, id))
    && forall k | 0 <= k < |s.log| :: OpOwned(s, k)
  }

  lemma StepKeepsCallLogged(s: State, step: Step, id: nat)
    requires ListsOk(s) && LogOk(s) && Enabled(s, step) && id < |After(s, step).calls|
    ensures CallLogged(After(s, step), id)
  {
    if id < |s.calls| {
      assert CallLogged(s, id) && CallOk(s.calls[id]) by { assert s.calls[id] in s.calls; }
    }
  }

  lemma StepKeepsLog(s: State, step: Step)
    requires ListsOk(s) && LogOk(s) && Enabled(s, step)
    ensures LogOk(After(s, step))
  {
    var s' := After(s, step);
    forall id | 0 <= id < |s'.calls| ensures CallLogged(s', id) { StepKeepsCallLogged(s, step, id); }
    forall k | 0 <= k < |s'.log| ensures OpOwned(s', k) {
      if k < |s.log| {
        assert OpOwned(s, k);
        if step.Advance? { assert CallLogged(s, step.id); }
      }
    }
  }

  ghost predicate Inv(s: State) { ListsOk(s) && AtomicOk(s) && LogOk(s) }

  lemma {:induction false} RunPreservesInv(s: State, steps: seq<Step>)
    requires Inv(s) && IsRun(s, steps)
    ensures Inv(Final(s, steps)) && Final(s, steps).initial == s.initial
  {
    if steps != [] {
      var before, step := steps[..|steps| - 1], steps[|steps| - 1];
      RunPreservesInv(s, before);
      StepRefinesOp(Final(s, before), step);
      StepKeepsAtomic(Final(s, before), step);
      StepKeepsLog(Final(s, before), step);
    }
  }

  lemma RunKeepsInv(s: State, steps: seq<Step>)
    requires Initial(s) && IsRun(s, steps)
    ensures Inv(Final(s, steps)) && Final(s, steps).initial == s.initial
  {
    SameMachinesRefl(s.initial);
    RunPreservesInv(s, steps);
  }

  /** Every interleaving of any number of publishes and unpublishes leaves each machine with a
      permutation of what the atomic run of the log leaves: nothing lost, nothing duplicated. */
  lemma InterleavingsAreAtomic(s: State, steps: seq<Step>, m: string)
    requires Initial(s) && IsRun(s, steps)
    requires m in Final(s, steps).cluster.machines
    ensures var t := Final(s, steps);
            && m in Replay(s.initial, t.log)
            && UniqueNames(t.cluster.machines[m])
            && multiset(t.cluster.machines[m]) == multiset(Replay(s.initial, t.log)[m])
  {
    RunKeepsInv(s, steps);
    var t := Final(s, steps);
    SameEntriesIsPermutation(t.cluster.machines[m], Replay(s.initial, t.log)[m]);
  }

  /** In that log every successful call occurs, exactly once, between its begin and its end. */
  lemma LogHasEveryCallOnce(s: State, steps: seq<Step>, id: nat)
    requires Initial(s) && IsRun(s, steps) && id < |Final(s, steps).calls|
    ensures var t := Final(s, steps);
            var call := t.calls[id];
            && (call.pc.Done? && (call.pc.outcome.Published? || call.pc.outcome.Unpublished?) ==>
                  call.end.Some? && exists k | call.begin <= k < call.end.value <= |t.log| :: t.log[k] == OpOf(id, call))
            && (forall k, l | 0 <= k < |t.log| && 0 <= l < |t.log|
                  && t.log[k] == OpOf(id, call) && t.log[l] == OpOf(id, call) :: k == l)
  {
    RunKeepsInv(s, steps);
    var t := Final(s, steps);
    var call := t.calls[id];
    assert CallLogged(t, id);
    if call.point.Some? { assert t.log[call.point.value] == OpOf(id, call); }
    forall k | 0 <= k < |t.log| && t.log[k] == OpOf(id, call) ensures call.point == Some(k) { assert OpOwned(t, k); }
  }

  /** The log respects real time: a call that ended before another began comes first. */
  lemma LogRespectsTime(s: State, steps: seq<Step>, k: nat, l: nat)
    requires Initial(s) && IsRun(s, steps)
    requires k < |Final(s, steps).log| && l < |Final(s, steps).log|
    requires Final(s, steps).log[k].AttachOp? || Final(s, steps).log[k].DetachOp?
    requires Final(s, steps).log[l].AttachOp? || Final(s, steps).log[l].DetachOp?
    ensures var t := Final(s, steps);
            && t.log[k].call < |t.calls| && t.log[l].call < |t.calls|
            && var earlier, later := t.calls[t.log[k].call], t.calls[t.log[l].call];
               earlier.end.Some? && earlier.end.value <= later.begin ==> k < l
  {
    RunKeepsInv(s, steps);
    var t := Final(s, steps);
    assert OpOwned(t, k) && OpOwned(t, l);
    assert CallLogged(t, t.log[k].call) && CallLogged(t, t.log[l].call);
  }
}
