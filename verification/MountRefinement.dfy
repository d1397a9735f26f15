/** Every run of interleaved, failing RPCs acts on the mount table as on a map from path to device. */
module MountRefinement {
  import opened MountTable
  import opened NodeProtocol
  import opened NodeEffects

  /** What a step does to the map. Only two system calls touch it: a mount binds a free path, an unmount
      unbinds one; a failing call may have done so or not. */
  ghost predicate MapStep(managed: iset<string>, s: State, step: Step, table: map<string, string>, table': map<string, string>)
    requires Enabled(managed, s, step)
  {
    if !step.Advance? then table' == table
    else
      var rpc := s.calls[step.id].rpc;
      var bound := rpc.path !in table && MapBinds(managed, rpc, table, table');
      var unbound := table' == table - {rpc.path};
      match s.calls[step.id].pc
      case MountIt => if step.pc == Finished(true) then bound else bound || table' == table
      case UnmountIt => if step.pc == Remove then unbound else unbound || table' == table
      case _ => table' == table
  }

  lemma OthersKeepMap(managed: iset<string>, s: State, step: Step, table: map<string, string>)
    requires Enabled(managed, s, step) && !step.Advance? && Represents(managed, s.fs.mounts, table)
    ensures Represents(managed, After(s, step).fs.mounts, table)
  {
    match step {
      case OthersMount(d, q) =>
        assert Under(q, q);
        forall p { MountCounts(s.fs.mounts, d, q, p); }
      case OthersUnmount(q) =>
        forall p { UnmountedCounts(s.fs.mounts, q, p); }
      case _ =>
    }
  }

  lemma StepRefinesMap(managed: iset<string>, s: State, step: Step, table: map<string, string>)
    returns (table': map<string, string>)
    requires Inv(managed, s) && Enabled(managed, s, step) && Represents(managed, s.fs.mounts, table)
    ensures Represents(managed, After(s, step).fs.mounts, table') && MapStep(managed, s, step, table, table')
  {
    if !step.Advance? {
      OthersKeepMap(managed, s, step, table);
      return table;
    }
    var call := s.calls[step.id];
    var p, ms, ms' := call.rpc.path, s.fs.mounts, step.fs.mounts;
    assert CallOk(managed, s, step.id);
    if call.pc == MountIt {
      var device :| Backs(call.rpc, s.fs, device) && MountOutcome(s.fs, device, p, step.pc.ok, step.fs);
      Concat(ms, [], p);
      assert p !in table;
      if ms' == ms && step.pc != Finished(true) { return table; }
      MountBinds(managed, call.rpc, s.fs, device, table);
      return table[p := device];
    }
    if call.pc == UnmountIt {
      if ms' == ms && step.pc != Remove { return table; }
      UnmountRefinesMap(managed, ms, table, p);
      return table - {p};
    }
    return table;
  }

  /** tables[i] is the map after i steps. */
  ghost predicate Simulates(managed: iset<string>, s: State, steps: seq<Step>, tables: seq<map<string, string>>)
    requires IsRun(managed, s, steps)
  {
    && |tables| == |steps| + 1
    && Represents(managed, Final(managed, s, steps).fs.mounts, tables[|steps|])
    && (steps == [] ||
        var before, step := steps[..|steps| - 1], steps[|steps| - 1];
        && Simulates(managed, s, before, tables[..|steps|])
        && MapStep(managed, Final(managed, s, before), step, tables[|steps| - 1], tables[|steps|]))
  }

  /** Every run is simulated by the map: whatever interleaves and fails, and whatever others mount,
      however often, at paths that are not managed. */
  lemma {:induction false} RunRefinesMap(managed: iset<string>, s: State, steps: seq<Step>)
    returns (tables: seq<map<string, string>>)
    requires Unnested(managed) && IsRun(managed, s, steps)
    requires s.calls == [] && forall p | p in managed :: CleanAt(s.fs.mounts, p)
    ensures Simulates(managed, s, steps, tables)
    decreases |steps|
  {
    if steps == [] {
      forall p { TableIsScan(s.fs.mounts, p); }
      return [Table(s.fs.mounts)];
    }
    var before, step := steps[..|steps| - 1], steps[|steps| - 1];
    var earlier := RunRefinesMap(managed, s, before);
    RunKeepsInv(managed, s, before);
    var table := StepRefinesMap(managed, Final(managed, s, before), step, earlier[|before|]);
    tables := earlier + [table];
    assert tables[..|steps|] == earlier;
  }
}
