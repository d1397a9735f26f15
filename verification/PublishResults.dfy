/** What the callers of ControllerPublishVolume can rely on, in every reachable state. */
module PublishResults {
  import opened Attachments
  import opened Clusters
  import opened AttachmentProtocol

  /** The operations that take volume v off machine m. */
  predicate Removes(op: Op, m: string, v: string) {
    || (op.DetachOp? && op.machine == m && op.volume == v)
    || (op.RemoveOp? && op.machine == m)
  }

  ghost predicate Undisturbed(log: seq<Op>, from: nat, m: string, v: string) {
    forall k | from <= k < |log| :: !Removes(log[k], m, v)
  }

  /** No other operation takes an attachment away or changes a device it already has. */
  lemma OpKeepsAttachment(ms: map<string, Attachments>, ms': map<string, Attachments>, op: Op, m: string, v: string)
    requires forall n | n in ms :: Tidy(ms[n])
    requires SameMachines(ms', ApplyOp(ms, op))
    requires m in ms && Attached(ms[m], v) && !Removes(op, m, v)
    requires op.AddOp? ==> op.machine !in ms
    requires op.EditOp? && op.machine in ms ==> KeepsDriverEntries(ms[op.machine], op.list)
    ensures m in ms' && Attached(ms'[m], v)
    ensures DeviceOf(ms[m], AttachmentName(v)) != "" ==>
              DeviceOf(ms'[m], AttachmentName(v)) == DeviceOf(ms[m], AttachmentName(v))
  {
    var name := AttachmentName(v);
    match op {
      case AttachOp(_, n, w) => if n == m { AttachKeepsOthers(ms[m], w); }
      case DetachOp(_, n, w) =>
        if n == m {
          DetachKeepsOthers(ms[m], w);
          if AttachmentName(w) == name { AttachmentNameInjective(v, w); }
        }
      case DeviceOp(n, other, d) => if n == m { SetDeviceKeepsOthers(ms[m], other, d); }
      case _ =>
    }
    assert m in ApplyOp(ms, op) && Entry(ms'[m], name) == Entry(ApplyOp(ms, op)[m], name);
  }

  /** A call returns a path exactly for an available volume with access attributes, whose attachment has its
      device in the list the call holds; and the path shows that device and the volume's own handle. */
  lemma CheckAnswers(c: Cluster, m: string, v: string, seen: Attachments, c': Cluster, path: string, acts: bool)
    ensures CallStep(m, v, c, PublishCheck(seen), c', Done(Published(path)), acts) <==>
              && c' == c && !acts && v in c.volumes && c.volumes[v].state == Available
              && c.volumes[v].access.Some? && c.volumes[v].access.value.hasAttributes
              && exists i :: FirstWithDevice(seen, v + "-attachment", i)
                   && Shows(path, seen[i].device.value, c.volumes[v].access.value.handle)
  {
    if v in c.volumes {
      var i := ValidatedName(c.volumes[v], seen, AttachmentName(v));
      forall k, l | FirstWithDevice(seen, AttachmentName(v), k) && FirstWithDevice(seen, AttachmentName(v), l) ensures k == l {}
      var answer := ValidateDeviceName(c.volumes[v], seen, AttachmentName(v));
      if answer.Success? && Shows(path, seen[i].device.value, c.volumes[v].access.value.handle) {
        ShownOnce(path, answer.value, seen[i].device.value, c.volumes[v].access.value.handle);
      }
    }
  }

  ghost predicate HasHandle(c: Cluster, v: string, handle: string) {
    v in c.volumes && c.volumes[v].access.Some? && c.volumes[v].access.value.handle == handle
  }

  /** v had that handle in some state of the run. */
  ghost predicate HadHandle(s: State, steps: seq<Step>, v: string, handle: string)
    requires IsRun(s, steps)
  {
    HasHandle(Final(s, steps).cluster, v, handle) || (steps != [] && HadHandle(s, steps[..|steps| - 1], v, handle))
  }

  ghost function Handles(s: State, steps: seq<Step>, v: string): iset<string>
    requires IsRun(s, steps)
  {
    iset handle | HadHandle(s, steps, v, handle)
  }

  /** The path shows the device and one of the handles. */
  ghost predicate ShowsOneOf(handles: iset<string>, path: string, device: string) {
    device != "" && exists handle :: handle in handles && Shows(path, device, handle)
  }

  /** What a publish that has taken effect leaves behind until its volume is taken off the machine. */
  ghost predicate PublishStands(handles: iset<string>, s: State, id: nat)
    requires id < |s.calls|
  {
    var call := s.calls[id];
    var m, v := call.machine, call.volume;
    call.publishes && call.point.Some? && Undisturbed(s.log, call.point.value + 1, m, v) ==>
      && m in s.cluster.machines && Attached(s.cluster.machines[m], v)
      && var device := DeviceOf(s.cluster.machines[m], AttachmentName(v));
         match call.pc
         case PublishCheck(seen) => DeviceOf(seen, AttachmentName(v)) in {"", device}
         case Done(Published(path)) => ShowsOneOf(handles, path, device)
         case _ => true
  }

  lemma StepKeepsPublish(handles: iset<string>, s: State, step: Step, id: nat)
    requires Inv(s) && Enabled(s, step)
    requires id < |s.calls| && PublishStands(handles, s, id)
    requires forall handle | HasHandle(s.cluster, s.calls[id].volume, handle) :: handle in handles
    ensures PublishStands(handles, After(s, step), id)
  {
    var s' := After(s, step);
    var call, call' := s.calls[id], s'.calls[id];
    var m, v := call.machine, call.volume;
    assert call in s.calls && CallOk(call);
    StepRefinesOp(s, step);
    assert CallLogged(s, id);
    assert s.log <= s'.log;
    if call.publishes && call'.point.Some? && Undisturbed(s'.log, call'.point.value + 1, m, v) {
      if call.point.None? {
        FreshPublish(handles, s, step, id);
      } else {
        assert call' == call || (step.Advance? && step.id == id && !step.acts);
        forall k | call.point.value < k < |s.log| ensures !Removes(s.log[k], m, v) { assert s.log[k] == s'.log[k]; }
        if StepOp(s, step).Some? {
          assert s'.log[|s.log|] == StepOp(s, step).value;
          OpKeepsAttachment(s.cluster.machines, s'.cluster.machines, StepOp(s, step).value, m, v);
        } else {
          assert Entry(s.cluster.machines[m], AttachmentName(v)) == Entry(s'.cluster.machines[m], AttachmentName(v));
        }
        if call.pc.PublishCheck? {
          ScanFindsOwnEntry(call.pc.seen, AttachmentName(v));
          if step.Advance? && step.id == id && step.pc.Done? && step.pc.outcome.Published? { ChecksOut(handles, s, step, id); }
        }
      }
    }
  }

  lemma ChecksOut(handles: iset<string>, s: State, step: Step, id: nat)
    requires Enabled(s, step) && step.Advance? && step.id == id && id < |s.calls| && s.calls[id].pc.PublishCheck?
    requires step.pc.Done? && step.pc.outcome.Published?
    requires forall handle | HasHandle(s.cluster, s.calls[id].volume, handle) :: handle in handles
    ensures ShowsOneOf(handles, step.pc.outcome.devicePath, FindDevice(s.calls[id].pc.seen, AttachmentName(s.calls[id].volume)))
  {
    var v := s.calls[id].volume;
    var device, handle := FindDevice(s.calls[id].pc.seen, AttachmentName(v)), s.cluster.volumes[v].access.value.handle;
    DevicePathShows(device, handle);
    assert HasHandle(s.cluster, v, handle);
  }

  /** The very step at which a publish takes effect. */
  lemma FreshPublish(handles: iset<string>, s: State, step: Step, id: nat)
    requires Inv(s) && Enabled(s, step) && id < |s.calls| && s.calls[id].publishes
    requires step.Advance? && step.id == id && step.acts
    ensures PublishStands(handles, After(s, step), id)
  {
    var call := s.calls[id];
    var m, v := call.machine, call.volume;
    assert call in s.calls && CallOk(call);
    CallStepRefinesOp(id, call, s.cluster, step.cluster, step.pc, true);
    AttachKeepsOthers(s.cluster.machines[m], v);
    assert Entry(step.cluster.machines[m], AttachmentName(v)) == Entry(Attach(s.cluster.machines[m], v), AttachmentName(v));
  }

  lemma {:induction false} RunKeepsPublishes(s: State, steps: seq<Step>, id: nat)
    requires Initial(s) && IsRun(s, steps) && id < |Final(s, steps).calls|
    ensures PublishStands(Handles(s, steps, Final(s, steps).calls[id].volume), Final(s, steps), id)
  {
    var before, step := steps[..|steps| - 1], steps[|steps| - 1];
    RunKeepsInv(s, before);
    if id < |Final(s, before).calls| {
      var v := Final(s, before).calls[id].volume;
      RunKeepsPublishes(s, before, id);
      StepKeepsPublish(Handles(s, before, v), Final(s, before), step, id);
      assert Handles(s, before, v) <= Handles(s, steps, v);
    }
  }

  /** The path a call has returned shows, while its volume has not been taken off, the device that is on the
      machine and a handle that this volume had. */
  lemma PublishedPathIsOwn(s: State, steps: seq<Step>, id: nat) returns (handle: string)
    requires Initial(s) && IsRun(s, steps) && id < |Final(s, steps).calls|
    requires var call := Final(s, steps).calls[id];
             && call.pc.Done? && call.pc.outcome.Published? && call.point.Some?
             && Undisturbed(Final(s, steps).log, call.point.value + 1, call.machine, call.volume)
    ensures var t, call := Final(s, steps), Final(s, steps).calls[id];
            && HadHandle(s, steps, call.volume, handle)
            && call.machine in t.cluster.machines
            && var device := DeviceOf(t.cluster.machines[call.machine], AttachmentName(call.volume));
               device != "" && Shows(call.pc.outcome.devicePath, device, handle)
  {
    RunKeepsInv(s, steps);
    RunKeepsPublishes(s, steps, id);
    var t, call := Final(s, steps), Final(s, steps).calls[id];
    assert call in t.calls && CallOk(call);
    var device := DeviceOf(t.cluster.machines[call.machine], AttachmentName(call.volume));
    handle :| handle in Handles(s, steps, call.volume) && Shows(call.pc.outcome.devicePath, device, handle);
  }

  /** However many publishes of a volume on a machine have taken effect, answered or not, there is
      exactly one attachment for it, until it is taken off. */
  lemma ExactlyOneAttachment(s: State, steps: seq<Step>, k: nat)
    requires Initial(s) && IsRun(s, steps)
    requires k < |Final(s, steps).log| && Final(s, steps).log[k].AttachOp?
    requires var op := Final(s, steps).log[k]; Undisturbed(Final(s, steps).log, k + 1, op.machine, op.volume)
    ensures var t, op := Final(s, steps), Final(s, steps).log[k];
            && op.machine in t.cluster.machines
            && var vs := t.cluster.machines[op.machine];
               exists i | 0 <= i < |vs| :: vs[i].name == AttachmentName(op.volume) && vs[i].volume == op.volume
                 && forall j | 0 <= j < |vs| && vs[j].name == AttachmentName(op.volume) :: j == i
  {
    RunKeepsInv(s, steps);
    var t := Final(s, steps);
    var op := t.log[k];
    assert OpOwned(t, k);
    assert CallLogged(t, op.call) && CallOk(t.calls[op.call]) by { assert t.calls[op.call] in t.calls; }
    RunKeepsPublishes(s, steps, op.call);
    var vs := t.cluster.machines[op.machine];
    IndexFindsFirst(vs, AttachmentName(op.volume));
    var i := VolumeAttachmentIndex(vs, AttachmentName(op.volume));
    assert vs[i] in vs && Honest(vs[i]);
  }

  /** The devices of a machine are usable and no two attachments share one. */
  ghost predicate DevicesDistinct(vs: Attachments) {
    && (forall i | 0 <= i < |vs| && vs[i].device.Some? :: UsableDevice(vs[i].device.value))
    && forall i, j | 0 <= i < j < |vs| && vs[i].device.Some? && vs[j].device.Some? :: vs[i].device != vs[j].device
  }

  /** Two volumes published on a machine, and not taken off since, were given different device paths. */
  lemma PublishedPathsDiffer(s: State, steps: seq<Step>, a: nat, b: nat)
    requires Initial(s) && IsRun(s, steps)
    requires var t := Final(s, steps);
             && a < |t.calls| && b < |t.calls|
             && t.calls[a].machine == t.calls[b].machine && t.calls[a].volume != t.calls[b].volume
             && (forall c | c in {t.calls[a], t.calls[b]} ::
                   && c.pc.Done? && c.pc.outcome.Published? && c.point.Some?
                   && Undisturbed(t.log, c.point.value + 1, c.machine, c.volume))
             && t.calls[a].machine in t.cluster.machines && DevicesDistinct(t.cluster.machines[t.calls[a].machine])
    ensures Final(s, steps).calls[a].pc.outcome.devicePath != Final(s, steps).calls[b].pc.outcome.devicePath
  {
    var t := Final(s, steps);
    RunKeepsInv(s, steps);
    var h := PublishedPathIsOwn(s, steps, a);
    var i := PublishedPathIsOwn(s, steps, b);
    var x, y := t.calls[a], t.calls[b];
    assert x in t.calls && CallOk(x) && y in t.calls && CallOk(y);
    var vs := t.cluster.machines[x.machine];
    var d, e := DeviceOf(vs, AttachmentName(x.volume)), DeviceOf(vs, AttachmentName(y.volume));
    DevicesOfDistinctVolumes(vs, x.volume, y.volume);
    if x.pc.outcome.devicePath == y.pc.outcome.devicePath {
      DevicePathDeterminesDevice(x.pc.outcome.devicePath, d, h, e, i);
    }
  }

  lemma DevicesOfDistinctVolumes(vs: Attachments, v: string, w: string)
    requires v != w && DevicesDistinct(vs)
    requires DeviceOf(vs, AttachmentName(v)) != "" && DeviceOf(vs, AttachmentName(w)) != ""
    ensures UsableDevice(DeviceOf(vs, AttachmentName(v))) && UsableDevice(DeviceOf(vs, AttachmentName(w)))
    ensures DeviceOf(vs, AttachmentName(v)) != DeviceOf(vs, AttachmentName(w))
  {
    if AttachmentName(v) == AttachmentName(w) { AttachmentNameInjective(v, w); }
    IndexFindsFirst(vs, AttachmentName(v));
    IndexFindsFirst(vs, AttachmentName(w));
    var i, j := VolumeAttachmentIndex(vs, AttachmentName(v)), VolumeAttachmentIndex(vs, AttachmentName(w));
    assert i < j || j < i;
  }

  /** The volume can be handed out on the machine: validateDeviceName has all it asks for. */
  ghost predicate Ready(c: Cluster, m: string, v: string) {
    && m in c.machines && v in c.volumes && c.volumes[v].state == Available
    && c.volumes[v].access.Some? && c.volumes[v].access.value.hasAttributes
    && DeviceOf(c.machines[m], AttachmentName(v)) != ""
  }

  /** The answers open to a call that finds its attachment made: it reads, patches nothing, and
      either some request fails or it returns the device path. */
  lemma RetrySteps(c: Cluster, m: string, v: string)
    requires Ready(c, m, v) && Tidy(c.machines[m])
    ensures var read := PublishCheck(c.machines[m]);
            forall c', pc', acts :: CallStep(m, v, c, PublishBegin, c', pc', acts) <==>
              c' == c && ((pc' == read && acts) || (pc' == Done(Failed) && !acts))
    ensures var path := DevicePath(DeviceOf(c.machines[m], AttachmentName(v)), c.volumes[v].access.value.handle);
            forall c', pc', acts :: CallStep(m, v, c, PublishCheck(c.machines[m]), c', pc', acts) <==>
              c' == c && !acts && (pc' == Done(Published(path)) || pc' == Done(Failed))
  {
    IndexFindsFirst(c.machines[m], AttachmentName(v));
    ScanFindsOwnEntry(c.machines[m], AttachmentName(v));
  }

  ghost predicate StaysReady(s: State, steps: seq<Step>, m: string, v: string)
    requires IsRun(s, steps)
  {
    Ready(Final(s, steps).cluster, m, v) && (steps == [] || StaysReady(s, steps[..|steps| - 1], m, v))
  }

  /** Between two states in which the volume is ready its device does not change: only taking it off
      could, and then it is not ready. */
  lemma ReadyKeepsDevice(s: State, step: Step, m: string, v: string)
    requires Inv(s) && Enabled(s, step) && Ready(s.cluster, m, v) && Ready(After(s, step).cluster, m, v)
    ensures DeviceOf(After(s, step).cluster.machines[m], AttachmentName(v)) == DeviceOf(s.cluster.machines[m], AttachmentName(v))
  {
    var name, ms, ms' := AttachmentName(v), s.cluster.machines, After(s, step).cluster.machines;
    StepRefinesOp(s, step);
    if StepOp(s, step).None? {
      assert Entry(ms'[m], name) == Entry(ms[m], name);
    } else if !Removes(StepOp(s, step).value, m, v) {
      OpKeepsAttachment(ms, ms', StepOp(s, step).value, m, v);
    } else {
      if StepOp(s, step).value.DetachOp? { DetachKeepsOthers(ms[m], v); }
      assert Entry(ms'[m], name) == Entry(ApplyOp(ms, StepOp(s, step).value)[m], name);
    }
  }

  /** Where a publish may stand that was begun when its attachment was made and ready: it has not set out
      to patch, and the device it has read or returned is the one on the machine. */
  ghost predicate OnItsWay(handles: iset<string>, pc: Pc, device: string, name: string) {
    match pc
    case PublishBegin => true
    case PublishCheck(seen) => DeviceOf(seen, name) == device
    case Done(Failed) => true
    case Done(Published(path)) => ShowsOneOf(handles, path, device)
    case _ => false
  }

  lemma StepKeepsOnItsWay(handles: iset<string>, s: State, step: Step, id: nat)
    requires Inv(s) && Enabled(s, step) && id < |s.calls|
    requires var m, v := s.calls[id].machine, s.calls[id].volume;
             && Ready(s.cluster, m, v) && Ready(After(s, step).cluster, m, v)
             && (forall handle | HasHandle(s.cluster, v, handle) :: handle in handles)
             && OnItsWay(handles, s.calls[id].pc, DeviceOf(s.cluster.machines[m], AttachmentName(v)), AttachmentName(v))
    ensures var m, v := s.calls[id].machine, s.calls[id].volume;
            OnItsWay(handles, After(s, step).calls[id].pc,
                     DeviceOf(After(s, step).cluster.machines[m], AttachmentName(v)), AttachmentName(v))
  {
    var call := s.calls[id];
    ReadyKeepsDevice(s, step, call.machine, call.volume);
    assert call in s.calls && CallOk(call);
    if step.Advance? && step.id == id {
      if call.pc.PublishCheck? {
        ScanFindsOwnEntry(call.pc.seen, AttachmentName(call.volume));
        if step.pc.Done? && step.pc.outcome.Published? { ChecksOut(handles, s, step, id); }
      }
      RetrySteps(s.cluster, call.machine, call.volume);
    }
  }

  lemma {:induction false} RunKeepsOnItsWay(s: State, steps: seq<Step>, id: nat)
    requires Inv(s) && IsRun(s, steps) && id < |s.calls| && s.calls[id].pc == PublishBegin
    requires StaysReady(s, steps, s.calls[id].machine, s.calls[id].volume)
    ensures var t, m, v := Final(s, steps), s.calls[id].machine, s.calls[id].volume;
            && id < |t.calls| && t.calls[id].publishes == s.calls[id].publishes
            && t.calls[id].machine == m && t.calls[id].volume == v
            && OnItsWay(Handles(s, steps, v), t.calls[id].pc, DeviceOf(t.cluster.machines[m], AttachmentName(v)), AttachmentName(v))
  {
    if steps != [] {
      var before := steps[..|steps| - 1];
      RunKeepsOnItsWay(s, before, id);
      RunPreservesInv(s, before);
      var v := s.calls[id].volume;
      StepKeepsOnItsWay(Handles(s, before, v), Final(s, before), steps[|steps| - 1], id);
      assert Handles(s, before, v) <= Handles(s, steps, v);
    }
  }

  /** The next request of such a publish, if it does not fail. */
  ghost predicate Onward(c: Cluster, m: string, v: string, pc: Pc, pc': Pc)
    requires Ready(c, m, v)
  {
    if pc == PublishBegin then pc' == PublishCheck(c.machines[m])
    else
      && pc'.Done? && pc'.outcome.Published?
      && Shows(pc'.outcome.devicePath, DeviceOf(c.machines[m], AttachmentName(v)), c.volumes[v].access.value.handle)
  }

  /** A retry converges, whatever happens around it. From any reachable state on, however many publishes
      failed before: a publish begun while attachment and volume are ready, and that stay so, never
      patches. Whenever its next request is made, the request either fails or brings it one step nearer
      to returning the path of the device on the machine; and it can be made. */
  lemma RetryConverges(s: State, steps: seq<Step>, more: seq<Step>, id: nat)
    requires Initial(s) && IsRun(s, steps) && IsRun(Final(s, steps), more)
    requires id < |Final(s, steps).calls| && Final(s, steps).calls[id].pc == PublishBegin
    requires StaysReady(Final(s, steps), more, Final(s, steps).calls[id].machine, Final(s, steps).calls[id].volume)
    ensures var t := Final(Final(s, steps), more);
            && id < |t.calls| && Ready(t.cluster, t.calls[id].machine, t.calls[id].volume)
            && var m, v, pc, c := t.calls[id].machine, t.calls[id].volume, t.calls[id].pc, t.cluster;
               && OnItsWay(Handles(Final(s, steps), more, v), pc, DeviceOf(c.machines[m], AttachmentName(v)), AttachmentName(v))
               && (!pc.Done? ==>
                     && (exists pc' :: Onward(c, m, v, pc, pc') && CallStep(m, v, c, pc, c, pc', pc == PublishBegin))
                     && forall c', pc', acts | CallStep(m, v, c, pc, c', pc', acts) ::
                          c' == c && (pc' == Done(Failed) || Onward(c, m, v, pc, pc')))
  {
    RunKeepsInv(s, steps);
    RunPreservesInv(Final(s, steps), more);
    RunKeepsOnItsWay(Final(s, steps), more, id);
    var t := Final(Final(s, steps), more);
    var call := t.calls[id];
    assert call in t.calls && CallOk(call);
    if !call.pc.Done? { NextRequest(t.cluster, call.machine, call.volume, call.pc); }
  }

  lemma NextRequest(c: Cluster, m: string, v: string, pc: Pc)
    requires Ready(c, m, v) && Tidy(c.machines[m])
    requires pc == PublishBegin ||
             (pc.PublishCheck? && Tidy(pc.seen) && DeviceOf(pc.seen, AttachmentName(v)) == DeviceOf(c.machines[m], AttachmentName(v)))
    ensures exists pc' :: Onward(c, m, v, pc, pc') && CallStep(m, v, c, pc, c, pc', pc == PublishBegin)
    ensures forall c', pc', acts | CallStep(m, v, c, pc, c', pc', acts) ::
              c' == c && (pc' == Done(Failed) || Onward(c, m, v, pc, pc'))
  {
    IndexFindsFirst(c.machines[m], AttachmentName(v));
    var device, handle := DeviceOf(c.machines[m], AttachmentName(v)), c.volumes[v].access.value.handle;
    DevicePathShows(device, handle);
    if pc == PublishBegin {
      assert Onward(c, m, v, pc, PublishCheck(c.machines[m])) && CallStep(m, v, c, pc, c, PublishCheck(c.machines[m]), true);
    } else {
      ScanFindsOwnEntry(pc.seen, AttachmentName(v));
      var answer := Done(Published(DevicePath(device, handle)));
      assert Onward(c, m, v, pc, answer) && CallStep(m, v, c, pc, c, answer, false);
    }
  }
}
