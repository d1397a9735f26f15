/** ControllerExpandVolume request by request: it reads the volume, compares, and patches the size. Any
    number of calls on one volume interleave, and any request may fail. */
module ExpansionProtocol {
  import opened Int64
  import opened Results
  import opened Capacity
  import opened Expansion

  /** Where a call stands; read is the size it has found, and has accepted to replace. */
  datatype Call = Asked(required: int64) | Accepted(required: int64, read: int64) | Ended

  datatype State = State(stored: int64, calls: seq<Call>)

  /** A patch may be applied although its answer is lost, and may fail without being applied. */
  datatype Step = Begin(required: int64) | Read(id: nat) | Patch(id: nat, applied: bool) | Fail(id: nat)

  predicate Enabled(s: State, step: Step) {
    match step
    case Begin(_) => true
    case Read(id) => id < |s.calls| && s.calls[id].Asked?
    case Patch(id, _) => id < |s.calls| && s.calls[id].Accepted?
    case Fail(id) => id < |s.calls|
  }

  function Patched(stored: int64, call: Call): int64
    requires call.Accepted?
  {
    MergeSize(call.read, RoundUpBytes(call.required), stored)
  }

  function After(s: State, step: Step): State
    requires Enabled(s, step)
  {
    match step
    case Begin(required) => s.(calls := s.calls + [Asked(required)])
    case Read(id) =>
      var required := s.calls[id].required;
      s.(calls := s.calls[id := if RoundUpBytes(required) < s.stored then Ended else Accepted(required, s.stored)])
    case Patch(id, applied) =>
      State(if applied then Patched(s.stored, s.calls[id]) else s.stored, s.calls[id := Ended])
    case Fail(id) => s.(calls := s.calls[id := Ended])
  }

  ghost predicate IsRun(s: State, steps: seq<Step>)
    decreases |steps|, 0
  {
    steps == [] || (IsRun(s, steps[..|steps| - 1]) && Enabled(Final(s, steps[..|steps| - 1]), steps[|steps| - 1]))
  }

  ghost function Final(s: State, steps: seq<Step>): State
    requires IsRun(s, steps)
    decreases |steps|, 1
  {
    if steps == [] then s else After(Final(s, steps[..|steps| - 1]), steps[|steps| - 1])
  }

  /** An accepted call does not want less than it has read. */
  ghost predicate Inv(s: State) {
    forall i | 0 <= i < |s.calls| && s.calls[i].Accepted? :: RoundUpBytes(s.calls[i].required) >= s.calls[i].read
  }

  lemma {:induction false} RunKeepsInv(s: State, steps: seq<Step>)
    requires Inv(s) && IsRun(s, steps)
    ensures Inv(Final(s, steps))
  {
    if steps != [] {
      RunKeepsInv(s, steps[..|steps| - 1]);
    }
  }

  /** A patch over a size that has meanwhile grown beyond what the call wants. */
  predicate Stale(s: State, step: Step) {
    && step.Patch? && step.applied && step.id < |s.calls| && s.calls[step.id].Accepted?
    && s.calls[step.id].read < RoundUpBytes(s.calls[step.id].required) < s.stored
  }

  ghost predicate NeverStale(s: State, steps: seq<Step>)
    requires IsRun(s, steps)
  {
    steps == [] || (NeverStale(s, steps[..|steps| - 1]) && !Stale(Final(s, steps[..|steps| - 1]), steps[|steps| - 1]))
  }

  ghost predicate NeverShrinks(s: State, steps: seq<Step>)
    requires IsRun(s, steps)
  {
    steps == [] ||
    (NeverShrinks(s, steps[..|steps| - 1]) && Final(s, steps[..|steps| - 1]).stored <= Final(s, steps).stored)
  }

  /** In any run of interleaved expansions the stored size never shrinks exactly if no stale patch is
      applied: a call that wants what it has read patches nothing. */
  lemma {:induction false} StaleExpansionShrinks(s: State, steps: seq<Step>)
    requires s.calls == [] && IsRun(s, steps)
    ensures NeverShrinks(s, steps) <==> NeverStale(s, steps)
  {
    if steps != [] {
      StaleExpansionShrinks(s, steps[..|steps| - 1]);
      RunKeepsInv(s, steps[..|steps| - 1]);
    }
  }

  ghost predicate AllEnded(s: State) { forall i | 0 <= i < |s.calls| :: s.calls[i].Ended? }

  /** Calls come one at a time. */
  ghost predicate OneByOne(s: State, steps: seq<Step>)
    requires IsRun(s, steps)
  {
    steps == [] ||
    (OneByOne(s, steps[..|steps| - 1])
     && (steps[|steps| - 1].Begin? ==> AllEnded(Final(s, steps[..|steps| - 1]))))
  }

  /** Then only the last call is under way, and what it has read is what is stored. */
  ghost predicate LastCallOnly(s: State) {
    forall i | 0 <= i < |s.calls| && !s.calls[i].Ended? ::
      i == |s.calls| - 1 && (s.calls[i].Accepted? ==> s.calls[i].read == s.stored)
  }

  lemma StepKeepsLastCallOnly(s: State, step: Step)
    requires LastCallOnly(s) && Enabled(s, step) && (step.Begin? ==> AllEnded(s))
    ensures LastCallOnly(After(s, step))
  {
    match step {
      case Begin(_) =>
      case Read(id) => assert id == |s.calls| - 1;
      case Patch(id, _) => assert id == |s.calls| - 1;
      case Fail(_) =>
    }
  }

  lemma {:induction false} RunKeepsLastCallOnly(s: State, steps: seq<Step>)
    requires s.calls == [] && IsRun(s, steps) && OneByOne(s, steps)
    ensures LastCallOnly(Final(s, steps))
  {
    if steps != [] {
      RunKeepsLastCallOnly(s, steps[..|steps| - 1]);
      StepKeepsLastCallOnly(Final(s, steps[..|steps| - 1]), steps[|steps| - 1]);
    }
  }

  /** So no patch is stale, and each call does to the stored size what a call on its own may do. */
  lemma {:induction false} OneByOneNeverShrinks(s: State, steps: seq<Step>)
    requires s.calls == [] && IsRun(s, steps) && OneByOne(s, steps)
    ensures NeverStale(s, steps) && NeverShrinks(s, steps)
    ensures forall id: nat, applied | Enabled(Final(s, steps), Patch(id, applied)) ::
              var t := Final(s, steps);
              ExpandOutcome(Some(t.stored), t.calls[id].required, Some(After(t, Patch(id, applied)).stored))
  {
    RunKeepsInv(s, steps);
    RunKeepsLastCallOnly(s, steps);
    if steps != [] {
      OneByOneNeverShrinks(s, steps[..|steps| - 1]);
      RunKeepsLastCallOnly(s, steps[..|steps| - 1]);
    }
    StaleExpansionShrinks(s, steps);
  }

  lemma Extend(s: State, steps: seq<Step>, step: Step)
    requires IsRun(s, steps) && Enabled(Final(s, steps), step)
    ensures IsRun(s, steps + [step]) && Final(s, steps + [step]) == After(Final(s, steps), step)
  {
    assert (steps + [step])[..|steps|] == steps;
  }

  /** A call on its own does what the handler promises: it gets as far as its patch exactly if the rounded
      request is not below the stored size, and then the rounded request is stored. */
  lemma AloneAcceptsExactly(stored: int64, required: int64)
    ensures var s, steps := State(stored, []), [Begin(required), Read(0), Patch(0, true)];
            && (IsRun(s, steps) <==> RoundUpBytes(required) >= stored)
            && (IsRun(s, steps) ==> Final(s, steps) == State(RoundUpBytes(required), [Ended]))
  {
    var s := State(stored, []);
    assert IsRun(s, []);
    Extend(s, [], Begin(required));
    Extend(s, [Begin(required)], Read(0));
    var read := [Begin(required)] + [Read(0)];
    assert read + [Patch(0, true)] == [Begin(required), Read(0), Patch(0, true)];
    assert [Begin(required), Read(0), Patch(0, true)][..2] == read;
    if RoundUpBytes(required) >= stored { Extend(s, read, Patch(0, true)); }
  }

  /** Two calls that overlap are enough, whatever the sizes: both read the size, the greater wish is
      patched first, and the lesser one, accepted too, takes it back. */
  lemma OverlappingExpansionsShrink(stored: int64, less: int64, more: int64) returns (steps: seq<Step>)
    requires stored < RoundUpBytes(less) < RoundUpBytes(more)
    ensures IsRun(State(stored, []), steps) && !NeverShrinks(State(stored, []), steps)
    ensures Final(State(stored, []), steps) == State(RoundUpBytes(less), [Ended, Ended])
  {
    var s := State(stored, []);
    steps := [];
    Extend(s, steps, Begin(less));
    steps := steps + [Begin(less)];
    Extend(s, steps, Begin(more));
    steps := steps + [Begin(more)];
    Extend(s, steps, Read(0));
    steps := steps + [Read(0)];
    Extend(s, steps, Read(1));
    steps := steps + [Read(1)];
    Extend(s, steps, Patch(1, true));
    steps := steps + [Patch(1, true)];
    assert Final(s, steps) == State(RoundUpBytes(more), [Accepted(less, stored), Ended]);
    Extend(s, steps, Patch(0, true));
    steps := steps + [Patch(0, true)];
    assert steps[..|steps| - 1] + [Patch(0, true)] == steps;
  }
}
