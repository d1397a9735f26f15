/** What CreateVolume is asked for, and which volume pool it tries. */
module Placement {
  import opened Int64
  import opened Results
  import opened Capacity

  const PARAMETER_TYPE := "type"
  const PARAMETER_VOLUME_POOL := "volume_pool"
  const PARAMETER_FS_TYPE := "fstype"
  const PARAMETER_MKFS_OPTIONS := "mkfs_options"
  const FS_TYPE_EXT4 := "ext4"
  const TOPOLOGY_KEY := "topology.csi.ironcore.dev/zone"

  type Segments = map<string, string>

  datatype Topology = Topology(preferred: seq<Segments>, requisite: seq<Segments>)

  datatype CreateRequest = CreateRequest(
    name: string, range: Option<CapacityRange>, parameters: map<string, string>, topology: Option<Topology>)

  /** accessible is the zone the answer restricts the volume to. */
  datatype Created = Created(capacity: int64, pool: string, fsType: string, mkfsOptions: string, accessible: Option<string>)

  function Parameter(parameters: map<string, string>, key: string, default: string): string {
    if key in parameters then parameters[key] else default
  }

  /** The first zone named. */
  function FirstZone(terms: seq<Segments>): Option<string> {
    if terms == [] then None
    else if TOPOLOGY_KEY in terms[0] then Some(terms[0][TOPOLOGY_KEY])
    else FirstZone(terms[1..])
  }

  /** Preferred terms come before requisite ones; "" if none names a zone. */
  function Zone(topology: Topology): string {
    var zone := FirstZone(topology.preferred + topology.requisite);
    if zone.Some? then zone.value else ""
  }

  lemma {:induction false} FirstZoneConcat(front: seq<Segments>, back: seq<Segments>)
    ensures FirstZone(front + back) == if FirstZone(front).Some? then FirstZone(front) else FirstZone(back)
  {
    if front == [] {
      assert front + back == back;
    } else {
      assert (front + back)[1..] == front[1..] + back;
      FirstZoneConcat(front[1..], back);
    }
  }

  /** The i-th term is the first that names a zone. */
  ghost predicate FirstNaming(terms: seq<Segments>, i: int) {
    0 <= i < |terms| && "topology.csi.ironcore.dev/zone" in terms[i] && NoneNames(terms[..i])
  }

  ghost predicate NoneNames(terms: seq<Segments>) {
    forall j | 0 <= j < |terms| :: "topology.csi.ironcore.dev/zone" !in terms[j]
  }

  lemma {:induction false} FirstZoneIsFirst(terms: seq<Segments>) returns (i: nat)
    ensures FirstZone(terms) == None ==> NoneNames(terms)
    ensures FirstZone(terms).Some? ==> FirstNaming(terms, i) && FirstZone(terms).value == terms[i]["topology.csi.ironcore.dev/zone"]
  {
    if terms == [] || TOPOLOGY_KEY in terms[0] { return 0; }
    var rest := FirstZoneIsFirst(terms[1..]);
    forall j | 0 < j < |terms| ensures terms[j] == terms[1..][j - 1] {}
    return rest + 1;
  }

  /** The zone of the first preferred term that names one; only if there is none, of the first requisite one. */
  ghost predicate PrefersZone(topology: Topology, zone: string) {
    || (exists i :: FirstNaming(topology.preferred, i) && zone == topology.preferred[i]["topology.csi.ironcore.dev/zone"])
    || (NoneNames(topology.preferred)
        && exists i :: FirstNaming(topology.requisite, i) && zone == topology.requisite[i]["topology.csi.ironcore.dev/zone"])
    || (NoneNames(topology.preferred) && NoneNames(topology.requisite) && zone == "")
  }

  lemma ZoneIsPreferred(topology: Topology)
    ensures PrefersZone(topology, Zone(topology))
  {
    FirstZoneConcat(topology.preferred, topology.requisite);
    var i := FirstZoneIsFirst(topology.preferred);
    var j := FirstZoneIsFirst(topology.requisite);
  }

  method GetAZFromTopology(topology: Topology) returns (zone: string)
    ensures zone == Zone(topology) && PrefersZone(topology, zone)
  {
    FirstZoneConcat(topology.preferred, topology.requisite);
    ZoneIsPreferred(topology);
    for i := 0 to |topology.preferred|
      invariant FirstZone(topology.preferred) == FirstZone(topology.preferred[i..])
    {
      if TOPOLOGY_KEY in topology.preferred[i] { return topology.preferred[i][TOPOLOGY_KEY]; }
    }
    for i := 0 to |topology.requisite|
      invariant FirstZone(topology.requisite) == FirstZone(topology.requisite[i..])
    {
      if TOPOLOGY_KEY in topology.requisite[i] { return topology.requisite[i][TOPOLOGY_KEY]; }
    }
    return "";
  }
}
