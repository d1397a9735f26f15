/** What callers of the controller see over several RPCs: sizes that grow, and sizes that do not. */
module ControllerClients {
  import opened Int64
  import opened Results
  import opened Capacity
  import opened Clusters
  import opened Expansion
  import opened Polling
  import opened Placement
  import opened Controller

  /** The stored volumes over a run of expansions of v, one after the other, each free to fail. */
  ghost predicate ExpandHistory(v: string, history: seq<map<string, Volume>>, requests: seq<int64>) {
    && |history| == |requests| + 1
    && forall i | 0 <= i < |requests| :: ExpandEffect(v, requests[i], history[i], history[i + 1])
  }

  predicate Stores(volumes: map<string, Volume>, v: string, size: int64) {
    v in volumes && volumes[v].size == Some(size)
  }

  /** After the i-th expansion the volume has the size it asked for, rounded, and that is beyond the bound. */
  ghost predicate ReachedBeyond(v: string, history: seq<map<string, Volume>>, requests: seq<int64>, bound: int64, i: int) {
    0 <= i < |requests| < |history| && RoundUpBytes(requests[i]) > bound && Stores(history[i + 1], v, RoundUpBytes(requests[i]))
  }

  /** Expansions never shrink a volume, and they grow it exactly if one of them takes it beyond its size. */
  lemma {:induction false} ExpansionsGrow(v: string, history: seq<map<string, Volume>>, requests: seq<int64>, size: int64)
    returns (last: int64)
    requires ExpandHistory(v, history, requests) && Stores(history[0], v, size)
    ensures Stores(history[|requests|], v, last) && size <= last
    ensures size < last <==> exists i :: ReachedBeyond(v, history, requests, size, i)
    decreases |requests|
  {
    if requests == [] { return size; }
    var n := |requests| - 1;
    var history', requests' := history[..n + 1], requests[..n];
    var before := ExpansionsGrow(v, history', requests', size);
    assert ExpandEffect(v, requests[n], history[n], history[n + 1]);
    last := history[n + 1][v].size.value;
    if size < before {
      var i :| ReachedBeyond(v, history', requests', size, i);
      assert ReachedBeyond(v, history, requests, size, i);
    } else if before < last {
      assert ReachedBeyond(v, history, requests, size, n);
    } else {
      forall i | ReachedBeyond(v, history, requests, size, i) ensures false {
        if i < n { assert ReachedBeyond(v, history', requests', size, i); }
      }
    }
  }

  /** A volume is created, expanded any number of times, and the creation is repeated, as a caller does
      that has lost the first answer. The repetition leaves exactly the size the range asks for: it
      shrinks the volume exactly if some expansion took it beyond that size. */
  lemma RepeatedCreateShrinks(name: string, range: Option<CapacityRange>, className: string,
      before: map<string, Volume>, history: seq<map<string, Volume>>, requests: seq<int64>, after: map<string, Volume>)
    requires GetVolSizeBytes(range).Success? && ExpandHistory(name, history, requests)
    requires WritesOnly(before, name, GetVolSizeBytes(range).value, className, history[0])
    requires WritesOnly(history[|requests|], name, GetVolSizeBytes(range).value, className, after)
    ensures var size, last := GetVolSizeBytes(range).value, history[|requests|];
            && name in last && last[name].size.Some? && Stores(after, name, size)
            && (after[name].size.value < last[name].size.value
                <==> exists i :: ReachedBeyond(name, history, requests, size, i))
  {
    var last := ExpansionsGrow(name, history, requests, GetVolSizeBytes(range).value);
  }

  function CreateOf(name: string, required: int64, className: string, pool: string): CreateRequest {
    CreateRequest(name, Some(CapacityRange(required, 0)),
                  map[PARAMETER_TYPE := className, PARAMETER_VOLUME_POOL := pool], None)
  }

  const READY_AT_ONCE: seq<Poll> := [Ready, Ready, Ready, Ready, Ready]

  method Create(server: ControllerServer, name: string, required: int64, className: string, pool: string)
    returns (r: Result<Created>)
    requires pool != ""
    modifies server`volumes, server`failures
    ensures server.failures >= old(server.failures)
    ensures server.failures == old(server.failures) ==>
              && r == Success(Created(RoundUpBytes(required), if pool in server.pools then pool else "", FS_TYPE_EXT4, "", None))
              && WritesOnly(old(server.volumes), name, RoundUpBytes(required), className, server.volumes)
  {
    assert ReadyAt(READY_AT_ONCE, 0);
    r := server.CreateVolume(CreateOf(name, required, className, pool), READY_AT_ONCE);
  }

  lemma WholeStays(g: int)
    requires 0 <= g <= 2
    ensures RoundUpBytes(g * GIB) == g * GIB
  {
    var x: int64 := g * GIB;
    assert x % GIB == 0 by { ScaledIsWhole(g); }
    assert LeastMultiple(RoundUpBytes(x), x) by { RoundUpBytesExact(x); }
    LeastMultipleIsLeast(RoundUpBytes(x), x, x);
  }

  /** It does happen: a volume of 1 GiB is expanded to 2 GiB, the creation is repeated, every call
      succeeds, and the volume has 1 GiB again. */
  method CreateExpandCreate(server: ControllerServer, name: string, className: string, pool: string)
    returns (first: Result<Created>, expanded: Result<int64>, second: Result<Created>)
    requires name != "" && pool != ""
    requires className in server.classes && server.classes[className] == ExpandOnly
    modifies server`volumes, server`failures
    ensures server.failures == old(server.failures) ==>
              && first.Success? && first.value.capacity == GIB && expanded == Success(2 * GIB)
              && second == first && Stores(server.volumes, name, GIB)
  {
    WholeStays(1);
    WholeStays(2);
    first := Create(server, name, GIB, className, pool);
    expanded := server.ControllerExpandVolume(name, Some(CapacityRange(2 * GIB, 0)));
    second := Create(server, name, GIB, className, pool);
  }

  /** It does happen: a request that no int64 size can meet is created all the same, with a negative size. */
  method CreateTooLarge(server: ControllerServer, name: string, required: int64, className: string, pool: string)
    returns (r: Result<Created>)
    requires required > MAX_ROUNDABLE && pool != ""
    modifies server`volumes, server`failures
    ensures server.failures == old(server.failures) ==>
              r.Success? && r.value.capacity < 0 && Stores(server.volumes, name, r.value.capacity)
  {
    RoundUpBytesWraps(required);
    r := Create(server, name, required, className, pool);
  }

  lemma RoundedNegative(x: int64)
    requires x <= 0
    ensures RoundUpBytes(x) <= 0
  {
    RoundUpBytesIsWhole(x);
    assert RoundedGiB(x) * GIB <= 0 by { RoundedGiBBounds(x); }
  }

  /** ControllerExpandVolume does not look at the limit. The answer to an accepted expansion breaks it
      exactly when the request can be rounded and no whole-GiB size satisfies the range; a non-negative
      stored size guarantees the first. */
  lemma LimitBroken(v: string, r: CapacityRange, volumes: map<string, Volume>, classes: map<string, ResizePolicy>)
    requires Expandable(v, r.required, volumes, classes) && r.limit > 0
    ensures RoundUpBytes(r.required) > r.limit <==> r.required <= MAX_ROUNDABLE && forall size :: !Admits(r, size)
    ensures volumes[v].size.value >= 0 ==> r.required <= MAX_ROUNDABLE
  {
    AcceptedExpansionMeetsRequest(volumes[v].size.value, r.required);
    if r.required < 0 {
      RoundedNegative(r.required);
      assert Admits(r, 0);
    } else if r.required <= MAX_ROUNDABLE {
      GetVolSizeBytesMeetsRange(r);
    } else {
      RoundUpBytesWraps(r.required);
    }
  }

  /** It does happen: a byte, and no more than that, is answered with a GiB. */
  method ExpandBeyondLimit(server: ControllerServer, v: string) returns (r: Result<int64>)
    requires v != "" && Expandable(v, 1, server.volumes, server.classes)
    modifies server
    ensures server.failures == old(server.failures) ==> r == Success(GIB)
  {
    assert LeastMultiple(RoundUpBytes(1), 1) by { RoundUpBytesExact(1); }
    LeastMultipleIsLeast(RoundUpBytes(1), 1, GIB);
    r := server.ControllerExpandVolume(v, Some(CapacityRange(1, 1)));
  }
}
