/** The controller RPCs, request by request. Every request may fail, and a failing write may have been
    applied all the same; failures counts the requests that failed. */
module Controller {
  import opened Int64
  import opened Results
  import opened Capacity
  import opened Attachments
  import opened StrategicMerge
  import opened Clusters
  import opened AttachmentProtocol
  import opened Expansion
  import opened Polling
  import opened Placement

  datatype ResizePolicy = Static | ExpandOnly

  /** What an undisturbed ControllerPublishVolume may do and answer. */
  ghost predicate PublishEffect(m: string, v: string, c: Cluster, c': Cluster, r: Result<string>) {
    && (c' == c || (m in c.machines && c' == c.(machines := c.machines[m := Attach(c.machines[m], v)])))
    && (r.Success? ==>
          && m in c.machines && c'.machines == c.machines[m := Attach(c.machines[m], v)]
          && v in c.volumes && c.volumes[v].state == Available
          && r == ValidateDeviceName(c.volumes[v], c'.machines[m], AttachmentName(v)))
  }

  /** What an undisturbed ControllerUnpublishVolume may do and answer. */
  ghost predicate UnpublishEffect(m: string, v: string, c: Cluster, c': Cluster, r: Result<()>) {
    && (c' == c || (m in c.nodes && m in c.machines && c' == c.(machines := c.machines[m := Detach(c.machines[m], v)])))
    && (r.Success? && m in c.nodes ==> m in c.machines && c'.machines == c.machines[m := Detach(c.machines[m], v)])
  }

  /** From c, a call standing at pc can bring the cluster to c' and end with this outcome. */
  ghost predicate CanEnd(m: string, v: string, c: Cluster, pc: Pc, c': Cluster, outcome: Outcome, requests: nat)
    decreases requests
  {
    if requests == 0 then c' == c && pc == Done(outcome)
    else exists c'', pc'', acts :: CallStep(m, v, c, pc, c'', pc'', acts) && CanEnd(m, v, c'', pc'', c', outcome, requests - 1)
  }

  lemma Before(m: string, v: string, c: Cluster, pc: Pc, c'': Cluster, pc'': Pc, acts: bool,
               c': Cluster, outcome: Outcome, requests: nat)
    requires CallStep(m, v, c, pc, c'', pc'', acts) && CanEnd(m, v, c'', pc'', c', outcome, requests)
    ensures CanEnd(m, v, c, pc, c', outcome, requests + 1)
  {}

  lemma FailsAtOnce(m: string, v: string, c: Cluster, pc: Pc)
    requires !pc.Done?
    ensures CanEnd(m, v, c, pc, c, Outcome.Failed, 1)
  {
    Before(m, v, c, pc, c, Done(Outcome.Failed), false, c, Outcome.Failed, 0);
  }

  /** Whatever the handler does on its own, the protocol can do. */
  lemma PublishEffectIsRun(m: string, v: string, c: Cluster, c': Cluster, r: Result<string>) returns (requests: nat)
    requires m in c.machines ==> Tidy(c.machines[m])
    requires PublishEffect(m, v, c, c', r)
    ensures CanEnd(m, v, c, PublishBegin, c', if r.Success? then Published(r.value) else Outcome.Failed, requests)
  {
    if c' == c && r.Failure? {
      FailsAtOnce(m, v, c, PublishBegin);
      return 1;
    }
    var vs, outcome := c.machines[m], if r.Success? then Published(r.value) else Outcome.Failed;
    var ws := Attach(vs, v);
    IndexFindsFirst(vs, AttachmentName(v));
    if r.Success? {
      Before(m, v, c', PublishCheck(ws), c', Done(outcome), false, c', outcome, 0);
    } else {
      FailsAtOnce(m, v, c', PublishCheck(ws));
    }
    if Attached(vs, v) {
      assert c.machines[m := vs] == c.machines;
      Before(m, v, c, PublishBegin, c, PublishCheck(vs), true, c', outcome, 1);
      return 2;
    }
    AttachKeepsOthers(vs, v);
    UncontestedPatch(vs, ws);
    Before(m, v, c, PublishPatch(vs), c', PublishCheck(ws), true, c', outcome, 1);
    Before(m, v, c, PublishBegin, c, PublishPatch(vs), false, c', outcome, 2);
    return 3;
  }

  lemma UnpublishEffectIsRun(m: string, v: string, c: Cluster, c': Cluster, r: Result<()>) returns (requests: nat)
    requires m in c.machines ==> Tidy(c.machines[m])
    requires UnpublishEffect(m, v, c, c', r)
    ensures CanEnd(m, v, c, UnpublishBegin, c',
                   if r.Failure? then Outcome.Failed else if m in c.nodes then Unpublished else NodeGone, requests)
  {
    if c' == c && r.Failure? {
      FailsAtOnce(m, v, c, UnpublishBegin);
      return 1;
    }
    if m !in c.nodes {
      Before(m, v, c, UnpublishBegin, c, Done(NodeGone), false, c, NodeGone, 0);
      return 1;
    }
    var vs, outcome := c.machines[m], if r.Success? then Unpublished else Outcome.Failed;
    var ws := Detach(vs, v);
    IndexFindsFirst(vs, AttachmentName(v));
    if !Attached(vs, v) {
      assert c.machines[m := vs] == c.machines;
      Before(m, v, c, UnpublishGet, c, Done(Unpublished), true, c, Unpublished, 0);
      Before(m, v, c, UnpublishBegin, c, UnpublishGet, false, c, Unpublished, 1);
      return 2;
    }
    DetachKeepsOthers(vs, v);
    UncontestedPatch(vs, ws);
    Before(m, v, c, UnpublishPatch(vs), c', Done(outcome), true, c', outcome, 0);
    Before(m, v, c, UnpublishGet, c, UnpublishPatch(vs), false, c', outcome, 1);
    Before(m, v, c, UnpublishBegin, c, UnpublishGet, false, c', outcome, 2);
    return 3;
  }

  /** And the protocol, on its own, can do nothing else. */
  lemma {:induction false} PublishRunIsEffect(m: string, v: string, c: Cluster, pc: Pc, c': Cluster, outcome: Outcome, requests: nat)
    requires CanEnd(m, v, c, pc, c', outcome, requests)
    ensures pc == PublishBegin ==>
              PublishEffect(m, v, c, c', if outcome.Published? then Success(outcome.devicePath) else Failure(Internal))
    ensures pc.PublishPatch? && m in c.machines && pc.base == c.machines[m] && !Attached(pc.base, v) ==>
              PublishEffect(m, v, c, c', if outcome.Published? then Success(outcome.devicePath) else Failure(Internal))
    ensures pc.PublishCheck? ==>
              && c' == c
              && (outcome.Published? ==>
                    && v in c.volumes && c.volumes[v].state == Available
                    && ValidateDeviceName(c.volumes[v], pc.seen, AttachmentName(v)) == Success(outcome.devicePath))
    ensures pc.Done? ==> c' == c && outcome == pc.outcome
    decreases requests
  {
    if requests > 0 {
      var c'', pc'', acts :|
        CallStep(m, v, c, pc, c'', pc'', acts) && CanEnd(m, v, c'', pc'', c', outcome, requests - 1);
      PublishRunIsEffect(m, v, c'', pc'', c', outcome, requests - 1);
      if m in c.machines { IndexFindsFirst(c.machines[m], AttachmentName(v)); }
      if pc == PublishBegin && pc''.PublishCheck? { assert c.machines[m := Attach(c.machines[m], v)] == c.machines; }
    }
  }

  lemma DoneIsEnd(m: string, v: string, c: Cluster, ended: Outcome, c': Cluster, outcome: Outcome, requests: nat)
    requires CanEnd(m, v, c, Done(ended), c', outcome, requests)
    ensures c' == c && outcome == ended
  {}

  /** From the read on: the volume is taken off, or the call fails with or without having done so. */
  ghost predicate Detaches(m: string, v: string, c: Cluster, c': Cluster, outcome: Outcome) {
    || (m in c.machines && c' == c.(machines := c.machines[m := Detach(c.machines[m], v)]))
    || (c' == c && outcome == Outcome.Failed)
  }

  lemma UnpublishPatchDetaches(m: string, v: string, c: Cluster, c': Cluster, outcome: Outcome, requests: nat)
    requires m in c.machines && CanEnd(m, v, c, UnpublishPatch(c.machines[m]), c', outcome, requests)
    ensures Detaches(m, v, c, c', outcome)
  {
    var c'', pc'', acts :|
      CallStep(m, v, c, UnpublishPatch(c.machines[m]), c'', pc'', acts) && CanEnd(m, v, c'', pc'', c', outcome, requests - 1);
    DoneIsEnd(m, v, c'', pc''.outcome, c', outcome, requests - 1);
  }

  lemma UnpublishGetDetaches(m: string, v: string, c: Cluster, c': Cluster, outcome: Outcome, requests: nat)
    requires CanEnd(m, v, c, UnpublishGet, c', outcome, requests)
    ensures Detaches(m, v, c, c', outcome)
  {
    var c'', pc'', acts :|
      CallStep(m, v, c, UnpublishGet, c'', pc'', acts) && CanEnd(m, v, c'', pc'', c', outcome, requests - 1);
    if pc''.Done? {
      DoneIsEnd(m, v, c'', pc''.outcome, c', outcome, requests - 1);
      if pc'' == Done(Unpublished) {
        IndexFindsFirst(c.machines[m], AttachmentName(v));
        assert c.machines[m := Detach(c.machines[m], v)] == c.machines;
      }
    } else {
      UnpublishPatchDetaches(m, v, c, c', outcome, requests - 1);
    }
  }

  lemma UnpublishRunIsEffect(m: string, v: string, c: Cluster, c': Cluster, outcome: Outcome, requests: nat)
    requires CanEnd(m, v, c, UnpublishBegin, c', outcome, requests)
    ensures UnpublishEffect(m, v, c, c', if outcome == Outcome.Failed then Failure(Internal) else Success(()))
  {
    var c'', pc'', acts :|
      CallStep(m, v, c, UnpublishBegin, c'', pc'', acts) && CanEnd(m, v, c'', pc'', c', outcome, requests - 1);
    if pc''.Done? {
      DoneIsEnd(m, v, c'', pc''.outcome, c', outcome, requests - 1);
    } else {
      UnpublishGetDetaches(m, v, c, c', outcome, requests - 1);
    }
  }

  /** What ControllerExpandVolume asks of the stored objects. */
  predicate Expandable(v: string, required: int64, volumes: map<string, Volume>, classes: map<string, ResizePolicy>) {
    && v in volumes && volumes[v].className in classes && classes[volumes[v].className] == ExpandOnly
    && volumes[v].size.Some? && RoundUpBytes(required) >= volumes[v].size.value
  }

  /** What one ControllerExpandVolume may do to the stored volumes. */
  ghost predicate ExpandEffect(v: string, required: int64, volumes: map<string, Volume>, volumes': map<string, Volume>) {
    || volumes' == volumes
    || (&& v in volumes && v in volumes' && volumes' == volumes[v := volumes[v].(size := volumes'[v].size)]
        && ExpandOutcome(volumes[v].size, required, volumes'[v].size))
  }

  /** Server-side apply with forced ownership: size and class are written. */
  function Applied(volumes: map<string, Volume>, name: string, size: int64, className: string): map<string, Volume> {
    var volume := if name in volumes then volumes[name] else Volume(None, "", Pending, None);
    volumes[name := volume.(size := Some(size), className := className)]
  }

  /** One volume has this size and class, and if it was there before, its status as it was; a new one has no
      access yet. All other volumes stay. */
  ghost predicate WritesOnly(before: map<string, Volume>, name: string, size: int64, className: string,
                             after: map<string, Volume>) {
    && after.Keys == before.Keys + {name}
    && (forall w | w in before && w != name :: after[w] == before[w])
    && after[name].size == Some(size) && after[name].className == className
    && (if name in before then after[name].state == before[name].state && after[name].access == before[name].access
        else after[name].state == Pending && after[name].access == None)
  }

  lemma AppliedWrites(volumes: map<string, Volume>, name: string, size: int64, className: string)
    ensures WritesOnly(volumes, name, size, className, Applied(volumes, name, size, className))
  {}

  ghost predicate AllTidy(machines: map<string, Attachments>) {
    forall m | m in machines :: Tidy(machines[m])
  }

  lemma EditsKeepTidy(machines: map<string, Attachments>, m: string, v: string)
    requires m in machines
    ensures AllTidy(machines) ==> AllTidy(machines[m := Attach(machines[m], v)])
    ensures AllTidy(machines) ==> AllTidy(machines[m := Detach(machines[m], v)]) && !Attached(Detach(machines[m], v), v)
  {
    if AllTidy(machines) {
      AttachKeepsOthers(machines[m], v);
      DetachKeepsOthers(machines[m], v);
    }
  }

  lemma UnpublishEdit(machines: map<string, Attachments>, m: string, v: string)
    requires m in machines
    ensures var wanted := machines[m := Detach(machines[m], v)];
            && (wanted == machines || CutsFirst(machines[m], v + "-attachment", wanted[m]))
            && ((exists e :: e in machines[m] && e.name == v + "-attachment") ==>
                  CutsFirst(machines[m], v + "-attachment", wanted[m]))
  {
    DetachCutsFirst(machines[m], v);
  }

  /** An attachment made just now has no device: success comes from what was there before. */
  lemma PublishAnswer(volume: Volume, vs: Attachments, v: string) returns (i: nat)
    ensures ValidateDeviceName(volume, Attach(vs, v), AttachmentName(v)).Success? <==>
              && volume.access.Some? && volume.access.value.hasAttributes
              && exists e | e in vs :: e.name == v + "-attachment" && e.device.Some? && e.device.value != ""
    ensures ValidateDeviceName(volume, Attach(vs, v), AttachmentName(v)).Success? ==>
              && Attach(vs, v) == vs && FirstWithDevice(vs, v + "-attachment", i)
              && Shows(ValidateDeviceName(volume, Attach(vs, v), AttachmentName(v)).value, vs[i].device.value,
                       volume.access.value.handle)
  {
    AttachAppends(vs, v);
    i := ValidatedName(volume, Attach(vs, v), AttachmentName(v));
    assert forall e :: HasDevice(e, AttachmentName(v)) <==> e.name == v + "-attachment" && e.device.Some? && e.device.value != "";
    assert forall e | e in vs :: e in Attach(vs, v);
  }

  class ControllerServer {
    var machines: map<string, Attachments>
    var volumes: map<string, Volume>
    var nodes: set<string>
    var classes: map<string, ResizePolicy>
    var pools: set<string>
    ghost var failures: nat

    ghost function View(): Cluster
      reads this
    {
      Cluster(machines, volumes, nodes)
    }

    ghost predicate Valid()
      reads this
    {
      AllTidy(machines)
    }

    /** A read that may fail; not finding the object is not a failure. */
    method Request() returns (ok: bool)
      modifies this`failures
      ensures failures == if ok then old(failures) else old(failures) + 1
    {
      ok := *;
      if !ok { failures := failures + 1; }
    }

    /** Patch with StrategicMergeFrom, against the list as read: see UncontestedPatch. */
    method PatchMachine(m: string, wanted: Attachments) returns (ok: bool)
      requires m in machines
      modifies this`machines, this`failures
      ensures failures == if ok then old(failures) else old(failures) + 1
      ensures machines == old(machines) || machines == old(machines)[m := wanted]
      ensures ok ==> machines == old(machines)[m := wanted]
    {
      ok := Request();
      var applied: bool := *;
      if ok || applied {
        machines := machines[m := wanted];
      }
    }

    method ControllerPublishVolume(m: string, v: string) returns (r: Result<string>)
      modifies this`machines, this`failures
      ensures PublishEffect(m, v, old(View()), View(), r)
      ensures old(Valid()) ==> Valid()
      ensures r.Success? <==>
                && failures == old(failures) && m in old(machines)
                && v in volumes && volumes[v].state == Available
                && volumes[v].access.Some? && volumes[v].access.value.hasAttributes
                && exists e | e in old(machines)[m] :: e.name == v + "-attachment" && e.device.Some? && e.device.value != ""
      ensures r.Success? ==>
                exists i :: FirstWithDevice(old(machines)[m], v + "-attachment", i)
                  && Shows(r.value, old(machines)[m][i].device.value, volumes[v].access.value.handle)
      ensures machines != old(machines) ==>
                && r.Failure? && m in old(machines) && (forall e | e in old(machines)[m] :: e.name != v + "-attachment")
                && machines == old(machines)[m := old(machines)[m] + [Attachment(v + "-attachment", v, None)]]
      ensures failures == old(failures) && m in old(machines) ==>
                exists e :: e in machines[m] && e.name == v + "-attachment"
      ensures r.Failure? ==> r.error == Internal
    {
      var ok := Request();
      if !ok || m !in machines { return Failure(Internal); }
      var spec := machines[m];
      var name := AttachmentName(v);
      var idx := VolumeAttachmentIndex(spec, name);
      ghost var wanted := machines[m := Attach(spec, v)];
      assert AllTidy(machines) ==> AllTidy(wanted) by { EditsKeepTidy(machines, m, v); }
      AttachAppends(spec, v);
      if idx < 0 {
        spec := spec + [Fresh(v)];
        ok := PatchMachine(m, spec);
        if !ok { return Failure(Internal); }
      }
      assert machines == wanted;
      ok := Request();
      if !ok || v !in volumes { return Failure(Internal); }
      if volumes[v].state != Available { return Failure(Internal); }
      ghost var first := PublishAnswer(volumes[v], old(machines)[m], v);
      r := ValidateDeviceName(volumes[v], spec, name);
    }

    method ControllerUnpublishVolume(m: string, v: string) returns (r: Result<()>)
      modifies this`machines, this`failures
      ensures UnpublishEffect(m, v, old(View()), View(), r)
      ensures old(Valid()) ==> Valid() && (r.Success? && m in nodes ==> !Attached(machines[m], v))
      ensures r.Success? <==> failures == old(failures) && (m in nodes ==> m in old(machines))
      ensures machines != old(machines) ==>
                && m in nodes && m in old(machines)
                && m in machines && machines == old(machines)[m := machines[m]]
                && CutsFirst(old(machines)[m], v + "-attachment", machines[m])
      ensures r.Success? && m in nodes && (exists e :: e in old(machines)[m] && e.name == v + "-attachment") ==>
                m in machines && CutsFirst(old(machines)[m], v + "-attachment", machines[m])
      ensures r.Failure? ==> r.error == Internal
    {
      var ok := Request();
      if !ok { return Failure(Internal); }
      if m !in nodes { return Success(()); }
      ok := Request();
      if !ok || m !in machines { return Failure(Internal); }
      var spec := machines[m];
      var idx := VolumeAttachmentIndex(spec, AttachmentName(v));
      ghost var wanted := machines[m := Detach(spec, v)];
      assert AllTidy(machines) ==> AllTidy(wanted) && !Attached(wanted[m], v) by { EditsKeepTidy(machines, m, v); }
      if idx >= 0 {
        spec := spec[..idx] + spec[idx + 1..];
        ok := PatchMachine(m, spec);
        assert machines == old(machines) || machines == wanted;
        UnpublishEdit(old(machines), m, v);
        if !ok { return Failure(Internal); }
      }
      assert machines == wanted;
      UnpublishEdit(old(machines), m, v);
      return Success(());
    }

    method ControllerExpandVolume(v: string, range: Option<CapacityRange>) returns (r: Result<int64>)
      modifies this`volumes, this`failures
      ensures r.Success? <==>
                && v != "" && range.Some? && failures == old(failures) && v in old(volumes)
                && old(volumes)[v].className in classes && classes[old(volumes)[v].className] == ExpandOnly
                && old(volumes)[v].size.Some? && RoundUpBytes(range.value.required) >= old(volumes)[v].size.value
      ensures r.Success? ==>
                && r.value == RoundUpBytes(range.value.required)
                && volumes == old(volumes)[v := old(volumes)[v].(size := Some(r.value))]
      ensures volumes != old(volumes) ==>
                && range.Some? && v in old(volumes)
                && old(volumes)[v].className in classes && classes[old(volumes)[v].className] == ExpandOnly
                && old(volumes)[v].size.Some? && RoundUpBytes(range.value.required) >= old(volumes)[v].size.value
                && volumes == old(volumes)[v := old(volumes)[v].(size := Some(RoundUpBytes(range.value.required)))]
      ensures range.Some? ==> ExpandEffect(v, range.value.required, old(volumes), volumes)
      ensures r == Failure(InvalidArgument) <==> v == "" || range.None?
      ensures v != "" && range.Some? && failures == old(failures) ==>
                (r == Failure(NotFound) <==> v !in volumes || volumes[v].className !in classes)
      ensures v != "" && range.Some? && failures == old(failures) && v in volumes && volumes[v].className in classes ==>
                var size := old(volumes)[v].size;
                && (classes[volumes[v].className] != ExpandOnly ==> r == Failure(BadRequest))
                && (size.None? ==> r == Failure(BadRequest))
                && (size.Some? && RoundUpBytes(range.value.required) < size.value ==> r == Failure(BadRequest))
      ensures failures >= old(failures)
      ensures failures != old(failures) ==> r.Failure? && r.error in {Internal, BadRequest}
    {
      if v == "" { return Failure(InvalidArgument); }
      if range.None? { return Failure(InvalidArgument); }
      var ok := Request();
      if !ok { return Failure(Internal); }
      if v !in volumes { return Failure(NotFound); }
      var volume := volumes[v];
      ok := Request();
      if !ok { return Failure(Internal); }
      if volume.className !in classes { return Failure(NotFound); }
      if classes[volume.className] != ExpandOnly { return Failure(BadRequest); }
      if volume.size.None? { return Failure(BadRequest); }
      var newSize := RoundUpBytes(range.value.required);
      if newSize < volume.size.value { return Failure(BadRequest); }
      ok := Request();
      var applied: bool := *;
      if ok || applied {
        volumes := volumes[v := volume.(size := Some(MergeSize(volume.size.value, newSize, volume.size.value)))];
      }
      if !ok { return Failure(BadRequest); }
      return Success(newSize);
    }

    /** Server-side apply of one volume. */
    method ApplyVolume(name: string, size: int64, className: string) returns (ok: bool)
      modifies this`volumes, this`failures
      ensures failures == if ok then old(failures) else old(failures) + 1
      ensures volumes == old(volumes) || WritesOnly(old(volumes), name, size, className, volumes)
      ensures ok ==> WritesOnly(old(volumes), name, size, className, volumes)
    {
      ok := Request();
      var applied: bool := *;
      if ok || applied {
        AppliedWrites(volumes, name, size, className);
        volumes := Applied(volumes, name, size, className);
      }
    }

    /** The polls are what the wait for availability sees. */
    method CreateVolume(request: CreateRequest, polls: seq<Poll>) returns (r: Result<Created>)
      requires |polls| >= WAIT_ACTIVE_STEPS
      modifies this`volumes, this`failures
      ensures var named := "volume_pool" in request.parameters && request.parameters["volume_pool"] != "";
              && (r.Success? <==>
                    && GetVolSizeBytes(request.range).Success? && "type" in request.parameters
                    && (named || request.topology.Some?)
                    && failures == old(failures) && exists i :: i < WAIT_ACTIVE_STEPS && ReadyAt(polls, i))
              && (r.Success? ==> (r.value.accessible.None? <==> named))
              && (r.Success? && named ==>
                    var pool := request.parameters["volume_pool"]; r.value.pool == if pool in pools then pool else "")
              && (r.Success? && !named ==>
                    var zone := r.value.accessible.value;
                    PrefersZone(request.topology.value, zone) && r.value.pool == if zone in pools then zone else "")
      ensures r.Success? ==>
                && r.value.capacity == GetVolSizeBytes(request.range).value
                && r.value.fsType == (if "fstype" in request.parameters then request.parameters["fstype"] else "ext4")
                && r.value.mkfsOptions == (if "mkfs_options" in request.parameters then request.parameters["mkfs_options"] else "")
                && WritesOnly(old(volumes), request.name, r.value.capacity, request.parameters["type"], volumes)
      ensures r.Success? ==> SizeAnswers(request.range, r.value.capacity)
      ensures volumes == old(volumes) ||
              (&& GetVolSizeBytes(request.range).Success? && "type" in request.parameters
               && WritesOnly(old(volumes), request.name, GetVolSizeBytes(request.range).value, request.parameters["type"], volumes))
      ensures r == Failure(InvalidArgument) <==> GetVolSizeBytes(request.range).Failure?
      ensures r == Failure(Unknown) <==>
                && GetVolSizeBytes(request.range).Success? && "type" in request.parameters
                && (request.topology.Some? || ("volume_pool" in request.parameters && request.parameters["volume_pool"] != ""))
                && failures == old(failures) && !exists i :: i < WAIT_ACTIVE_STEPS && ReadyAt(polls, i)
      ensures r.Failure? ==> r.error in {InvalidArgument, Internal, Unknown}
      ensures failures >= old(failures)
    {
      var size := GetVolSizeBytes(request.range);
      if size.Failure? { return Failure(InvalidArgument); }
      CreatedSize(request.range);
      var fsType := Parameter(request.parameters, PARAMETER_FS_TYPE, FS_TYPE_EXT4);
      var mkfsOptions := Parameter(request.parameters, PARAMETER_MKFS_OPTIONS, "");
      if PARAMETER_TYPE !in request.parameters { return Failure(Internal); }
      var pool, accessible := Parameter(request.parameters, PARAMETER_VOLUME_POOL, ""), None;
      if pool == "" {
        if request.topology.None? { return Failure(Internal); }
        pool := GetAZFromTopology(request.topology.value);
        accessible := Some(pool);
      }
      var ok := Request();
      if !ok { return Failure(Internal); }
      if pool !in pools { pool := ""; }
      ok := ApplyVolume(request.name, size.value, request.parameters[PARAMETER_TYPE]);
      if !ok { return Failure(Internal); }
      var wait, _, _ := WaitUntilReady(polls, WAIT_ACTIVE_STEPS);
      if wait != Arrived { return Failure(Unknown); }
      return Success(Created(size.value, pool, fsType, mkfsOptions, accessible));
    }
  }
}
