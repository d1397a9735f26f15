/** "An ironcore volume could only be attached to a single node at any given time": exactly which calls,
    which steps and which runs break it. */
module SingleAttachmentExact {
  import opened Results
  import opened Attachments
  import opened Clusters
  import opened AttachmentProtocol
  import opened SingleAttachment
  import opened Controller

  /** v is on machine m, and its node exists. */
  predicate LiveOn(c: Cluster, v: string, m: string) {
    m in c.nodes && m in c.machines && Attached(c.machines[m], v)
  }

  ghost predicate SingleIn(c: Cluster, v: string) {
    forall m, n | LiveOn(c, v, m) && LiveOn(c, v, n) :: m == n
  }

  ghost predicate TidyLists(c: Cluster) {
    forall m | m in c.machines :: Tidy(c.machines[m])
  }

  /** The publish edit on m makes v live on m, if its node exists, and changes nothing elsewhere. */
  lemma AttachedLive(c: Cluster, v: string, m: string, n: string)
    requires TidyLists(c) && m in c.machines
    ensures var c' := c.(machines := c.machines[m := Attach(c.machines[m], v)]);
            LiveOn(c', v, n) <==> LiveOn(c, v, n) || (n == m && m in c.nodes)
  {
    AttachKeepsOthers(c.machines[m], v);
  }

  /** v is live on another machine than m. */
  ghost predicate HeldElsewhere(c: Cluster, v: string, m: string) {
    exists n :: n != m && LiveOn(c, v, n)
  }

  lemma AttachSingle(c: Cluster, v: string, m: string)
    requires TidyLists(c) && SingleIn(c, v) && m in c.machines
    ensures SingleIn(c.(machines := c.machines[m := Attach(c.machines[m], v)]), v)
       <==> !(m in c.nodes && HeldElsewhere(c, v, m))
  {
    var c' := c.(machines := c.machines[m := Attach(c.machines[m], v)]);
    forall n ensures LiveOn(c', v, n) <==> LiveOn(c, v, n) || (n == m && m in c.nodes) { AttachedLive(c, v, m, n); }
    if m in c.nodes && HeldElsewhere(c, v, m) {
      var n :| n != m && LiveOn(c, v, n);
      assert LiveOn(c', v, m) && LiveOn(c', v, n);
    }
  }

  /** Per call, with nobody else about. A publish of v on m can leave v on two machines whose nodes exist
      exactly if m has a node and v is live elsewhere; then every publish that succeeds does so, because
      the handler looks at no other machine. An unpublish never does. */
  lemma CallBreaksSingle(m: string, v: string, c: Cluster)
    requires TidyLists(c) && SingleIn(c, v)
    ensures (exists c', outcome, requests :: CanEnd(m, v, c, PublishBegin, c', outcome, requests) && !SingleIn(c', v))
       <==> m in c.machines && m in c.nodes && HeldElsewhere(c, v, m)
    ensures forall c', path, requests | CanEnd(m, v, c, PublishBegin, c', Published(path), requests) ::
              SingleIn(c', v) <==> !(m in c.nodes && HeldElsewhere(c, v, m))
    ensures forall c', outcome, requests | CanEnd(m, v, c, UnpublishBegin, c', outcome, requests) :: SingleIn(c', v)
  {
    if m in c.machines { AttachSingle(c, v, m); }
    forall c', outcome, requests | CanEnd(m, v, c, PublishBegin, c', outcome, requests)
      ensures !SingleIn(c', v) ==> m in c.machines && m in c.nodes && HeldElsewhere(c, v, m)
      ensures outcome.Published? ==> m in c.machines && c' == c.(machines := c.machines[m := Attach(c.machines[m], v)])
    {
      PublishRunIsEffect(m, v, c, PublishBegin, c', outcome, requests);
    }
    if m in c.machines && m in c.nodes && HeldElsewhere(c, v, m) {
      var c' := c.(machines := c.machines[m := Attach(c.machines[m], v)]);
      var requests := PublishEffectIsRun(m, v, c, c', Failure(Internal));
      assert CanEnd(m, v, c, PublishBegin, c', Outcome.Failed, requests) && !SingleIn(c', v);
    }
    forall c', outcome, requests | CanEnd(m, v, c, UnpublishBegin, c', outcome, requests) ensures SingleIn(c', v) {
      UnpublishRunIsEffect(m, v, c, c', outcome, requests);
      if m in c.machines { DetachKeepsOthers(c.machines[m], v); }
      forall n | LiveOn(c', v, n) ensures LiveOn(c, v, n) {}
    }
  }

  /** The step makes v live on m: a publish takes effect there, or the node of a machine that has v joins. */
  ghost predicate Brings(s: State, step: Step, v: string, m: string)
    requires step.Advance? ==> step.id < |s.calls|
  {
    || (step.Advance? && step.acts && Publishes(s.calls[step.id], v, m) && m in s.cluster.nodes)
    || (step.NodeJoins? && step.node == m && On(s, v, m))
  }

  ghost predicate BringsSecond(s: State, step: Step, v: string)
    requires step.Advance? ==> step.id < |s.calls|
  {
    exists m, n :: m != n && LiveOn(s.cluster, v, n) && Brings(s, step, v, m)
  }

  lemma GainIsBrought(s: State, step: Step, v: string, m: string)
    requires Inv(s) && Enabled(s, step)
    requires LiveOn(After(s, step).cluster, v, m) && !LiveOn(s.cluster, v, m)
    ensures Brings(s, step, v, m)
  {
    if !On(s, v, m) {
      GainedByPublish(s, step, v, m);
      StepRefinesOp(s, step);
    }
  }

  lemma BroughtIsLive(s: State, step: Step, v: string, m: string, n: string)
    requires Inv(s) && Enabled(s, step) && Brings(s, step, v, m)
    ensures LiveOn(After(s, step).cluster, v, m)
    ensures n != m && LiveOn(s.cluster, v, n) ==> LiveOn(After(s, step).cluster, v, n)
  {
    if step.Advance? {
      var call := s.calls[step.id];
      assert call in s.calls && CallOk(call);
      CallStepRefinesOp(step.id, call, s.cluster, step.cluster, step.pc, true);
      var live, wanted := s.cluster.machines, ApplyOp(s.cluster.machines, OpOf(step.id, call));
      assert SameEntries(step.cluster.machines[m], wanted[m]) by { assert m in step.cluster.machines; }
      AttachKeepsOthers(live[m], v);
      if n != m && n in live { assert SameEntries(step.cluster.machines[n], live[n]) by { assert n in step.cluster.machines; } }
    }
  }

  /** The step ends v being live on m: its node leaves, the machine is removed, or an unpublish takes effect. */
  ghost predicate Takes(s: State, step: Step, v: string, m: string)
    requires step.Advance? ==> step.id < |s.calls|
  {
    || step == NodeLeaves(m)
    || step == RemoveMachine(m)
    || (step.Advance? && step.acts && !s.calls[step.id].publishes
        && s.calls[step.id].volume == v && s.calls[step.id].machine == m)
  }

  lemma OpTakesOff(ms: map<string, Attachments>, op: Op, v: string, m: string)
    requires forall n | n in ms :: Tidy(ms[n])
    requires op.AddOp? ==> op.machine !in ms
    requires op.EditOp? && op.machine in ms ==> KeepsDriverEntries(ms[op.machine], op.list)
    requires m in ms && Attached(ms[m], v)
    ensures m in ApplyOp(ms, op) && Attached(ApplyOp(ms, op)[m], v) <==>
              op != RemoveOp(m) && !(op.DetachOp? && op.machine == m && op.volume == v)
  {
    match op {
      case AttachOp(_, _, w) => AttachKeepsOthers(ms[m], w);
      case DetachOp(_, _, w) =>
        DetachKeepsOthers(ms[m], w);
        if AttachmentName(w) == AttachmentName(v) { AttachmentNameInjective(v, w); }
      case DeviceOp(_, name, d) => SetDeviceKeepsOthers(ms[m], name, d);
      case _ =>
    }
  }

  /** Where v is live after a step: where the step makes it live, and where it was and the step does not end it. */
  lemma LiveAfterStep(s: State, step: Step, v: string, m: string)
    requires Inv(s) && Enabled(s, step)
    ensures LiveOn(After(s, step).cluster, v, m) <==>
              Brings(s, step, v, m) || (LiveOn(s.cluster, v, m) && !Takes(s, step, v, m))
  {
    if Brings(s, step, v, m) {
      BroughtIsLive(s, step, v, m, m);
    } else if !LiveOn(s.cluster, v, m) {
      if LiveOn(After(s, step).cluster, v, m) { GainIsBrought(s, step, v, m); }
    } else {
      StepRefinesOp(s, step);
      if StepOp(s, step).Some? { OpTakesOff(s.cluster.machines, StepOp(s, step).value, v, m); }
    }
  }

  /** Per step, from every reachable state: a step keeps v on at most one machine whose node exists
      exactly if it does not make v live on one machine while v is live on another. */
  lemma StepBreaksSingle(s: State, step: Step, v: string)
    requires Inv(s) && Enabled(s, step) && SingleIn(s.cluster, v)
    ensures SingleIn(After(s, step).cluster, v) <==> !BringsSecond(s, step, v)
  {
    var c, c' := s.cluster, After(s, step).cluster;
    if BringsSecond(s, step, v) {
      var m, n :| m != n && LiveOn(c, v, n) && Brings(s, step, v, m);
      BroughtIsLive(s, step, v, m, n);
    } else {
      forall m, n | LiveOn(c', v, m) && LiveOn(c', v, n) ensures m == n {
        if !LiveOn(c, v, m) { GainIsBrought(s, step, v, m); }
        if !LiveOn(c, v, n) { GainIsBrought(s, step, v, n); }
      }
    }
  }

  /** v is on at most one machine whose node exists, in every state of the run. */
  ghost predicate AlwaysSingle(s: State, steps: seq<Step>, v: string)
    requires IsRun(s, steps)
  {
    SingleIn(Final(s, steps).cluster, v) && (steps == [] || AlwaysSingle(s, steps[..|steps| - 1], v))
  }

  ghost predicate NeverBringsSecond(s: State, steps: seq<Step>, v: string)
    requires IsRun(s, steps)
  {
    steps == [] ||
    (NeverBringsSecond(s, steps[..|steps| - 1], v)
     && !BringsSecond(Final(s, steps[..|steps| - 1]), steps[|steps| - 1], v))
  }

  /** Per run: the claim holds throughout exactly if no step of the run brings a second holder. */
  lemma {:induction false} RunStaysSingle(s: State, steps: seq<Step>, v: string)
    requires Initial(s) && IsRun(s, steps) && SingleIn(s.cluster, v)
    ensures AlwaysSingle(s, steps, v) <==> NeverBringsSecond(s, steps, v)
  {
    if steps != [] {
      var before, step := steps[..|steps| - 1], steps[|steps| - 1];
      RunStaysSingle(s, before, v);
      if AlwaysSingle(s, before, v) {
        RunKeepsInv(s, before);
        StepBreaksSingle(Final(s, before), step, v);
      }
    }
  }

  lemma {:induction false} CarefulAlwaysSingle(s: State, steps: seq<Step>, v: string)
    requires Initial(s) && IsRun(s, steps) && CarefulCaller(s, steps, v, true) && NoLateNode(s, steps, v)
    requires forall m :: !On(s, v, m)
    ensures AlwaysSingle(s, steps, v)
  {
    forall m, n | LiveOn(Final(s, steps).cluster, v, m) && LiveOn(Final(s, steps).cluster, v, n) ensures m == n {
      AtMostOneLiveMachine(s, steps, v, m, n);
    }
    if steps != [] { CarefulAlwaysSingle(s, steps[..|steps| - 1], v); }
  }

  /** A caller that waits, and nodes that do not join while their machine has v, meet that condition. */
  lemma CarefulNeverBringsSecond(s: State, steps: seq<Step>, v: string)
    requires Initial(s) && IsRun(s, steps) && CarefulCaller(s, steps, v, true) && NoLateNode(s, steps, v)
    requires forall m :: !On(s, v, m)
    ensures NeverBringsSecond(s, steps, v)
  {
    CarefulAlwaysSingle(s, steps, v);
    assert SingleIn(s.cluster, v) by { assert forall m :: LiveOn(s.cluster, v, m) ==> On(s, v, m); }
    RunStaysSingle(s, steps, v);
  }
}
