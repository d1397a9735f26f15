/** The mount table and the directories of a node, and the system calls the driver makes on them. */
module MountTable {
  import opened Results

  /** One line of the mount table. */
  datatype Mount = Mount(device: string, path: string)

  /** Mounts in the order they were made, and the paths that exist. */
  datatype Fs = Fs(mounts: seq<Mount>, paths: set<string>)

  /** q is p or lies beneath it. */
  predicate Under(p: string, q: string) {
    q == p || p + "/" <= q
  }

  /** The directories MkdirAll(p) may have to create before p. */
  function Ancestors(p: string): set<string> {
    set i | 0 < i < |p| && p[i] == '/' :: p[..i]
  }

  function Beneath(paths: set<string>, p: string): set<string> {
    set q | q in paths && Under(p, q)
  }

  /** How many mounts a path carries. */
  function Count(mounts: seq<Mount>, p: string): nat {
    if mounts == [] then 0 else (if mounts[0].path == p then 1 else 0) + Count(mounts[1..], p)
  }

  predicate Mounted(mounts: seq<Mount>, p: string) { Count(mounts, p) > 0 }

  /** No path at or beneath p carries a mount: deleting p recursively deletes no mounted file. */
  ghost predicate Deletable(mounts: seq<Mount>, p: string) {
    forall q | Under(p, q) :: Count(mounts, q) == 0
  }

  /** The device of the first mount at p, if there is one. */
  function DeviceAt(mounts: seq<Mount>, p: string): Option<string> {
    if mounts == [] then None
    else if mounts[0].path == p then Some(mounts[0].device)
    else DeviceAt(mounts[1..], p)
  }

  /** What getMountDeviceName answers: "" when nothing is mounted at p. */
  function DeviceName(mounts: seq<Mount>, p: string): string {
    if DeviceAt(mounts, p).Some? then DeviceAt(mounts, p).value else ""
  }

  /** Unmounting takes away the latest mount at p. */
  function Unmounted(mounts: seq<Mount>, p: string): seq<Mount> {
    if mounts == [] then []
    else
      var last := |mounts| - 1;
      if mounts[last].path == p then mounts[..last] else Unmounted(mounts[..last], p) + [mounts[last]]
  }

  /** A failing call may have had its effect, or part of it, all the same. */
  predicate MountOutcome(fs: Fs, device: string, p: string, ok: bool, fs': Fs) {
    && fs'.paths == fs.paths
    && (fs'.mounts == fs.mounts + [Mount(device, p)] || (!ok && fs'.mounts == fs.mounts))
  }

  predicate UnmountOutcome(fs: Fs, p: string, ok: bool, fs': Fs) {
    && fs'.paths == fs.paths
    && (fs'.mounts == Unmounted(fs.mounts, p) || (!ok && fs'.mounts == fs.mounts))
  }

  function WithDirectory(paths: set<string>, p: string): set<string> {
    paths + Ancestors(p) + {p}
  }

  /** Directories on the way to p are made first, p itself last. */
  predicate PartlyMade(paths: set<string>, p: string, paths': set<string>) {
    && paths <= paths' <= WithDirectory(paths, p)
    && (p in paths' && p !in paths ==> paths' == WithDirectory(paths, p))
  }

  predicate MkdirOutcome(fs: Fs, p: string, ok: bool, fs': Fs) {
    && fs'.mounts == fs.mounts && PartlyMade(fs.paths, p, fs'.paths)
    && (ok ==> fs'.paths == WithDirectory(fs.paths, p))
  }

  predicate RemoveOutcome(fs: Fs, p: string, ok: bool, fs': Fs) {
    && fs'.mounts == fs.mounts && fs.paths - Beneath(fs.paths, p) <= fs'.paths <= fs.paths
    && (ok ==> fs'.paths == fs.paths - Beneath(fs.paths, p))
  }

  lemma {:induction false} Concat(ms: seq<Mount>, ns: seq<Mount>, p: string)
    ensures Count(ms + ns, p) == Count(ms, p) + Count(ns, p)
    ensures DeviceAt(ms + ns, p) == if Mounted(ms, p) then DeviceAt(ms, p) else DeviceAt(ns, p)
    ensures Mounted(ms, p) <==> DeviceAt(ms, p).Some?
  {
    if ms == [] {
      assert ms + ns == ns;
    } else {
      assert (ms + ns)[1..] == ms[1..] + ns;
      Concat(ms[1..], ns, p);
    }
  }

  /** Mounting adds one mount at p and leaves every other path alone. */
  lemma MountCounts(ms: seq<Mount>, device: string, p: string, q: string)
    ensures var ns := ms + [Mount(device, p)];
            && Count(ns, q) == Count(ms, q) + (if q == p then 1 else 0)
            && DeviceAt(ns, q) == if q == p && !Mounted(ms, p) then Some(device) else DeviceAt(ms, q)
  {
    Concat(ms, [Mount(device, p)], q);
    Concat(ms, [], q);
  }

  /** Unmounting takes away one mount, at p if anywhere, and leaves every other path alone. */
  lemma {:induction false} UnmountedCounts(ms: seq<Mount>, p: string, q: string)
    ensures Count(Unmounted(ms, p), q) == if q == p && Mounted(ms, p) then Count(ms, p) - 1 else Count(ms, q)
    ensures q != p ==> DeviceAt(Unmounted(ms, p), q) == DeviceAt(ms, q)
  {
    if ms != [] {
      var front, last := ms[..|ms| - 1], ms[|ms| - 1];
      assert ms == front + [last];
      Concat(front, [last], q);
      UnmountedCounts(front, p, q);
      if last.path != p { Concat(Unmounted(front, p), [last], q); }
    }
  }

  lemma {:induction false} CountIsScan(ms: seq<Mount>, p: string)
    ensures Count(ms, p) == 0 <==> forall i | 0 <= i < |ms| :: ms[i].path != p
  {
    if ms != [] {
      CountIsScan(ms[1..], p);
      assert forall i | 0 < i < |ms| :: ms[i] == ms[1..][i - 1];
    }
  }

  lemma MountedIsListed(ms: seq<Mount>, p: string)
    ensures Mounted(ms, p) <==> exists m :: m in ms && m.path == p
  {
    CountIsScan(ms, p);
  }

  lemma DeletableIsScan(ms: seq<Mount>, p: string)
    ensures Deletable(ms, p) <==> forall i | 0 <= i < |ms| :: !Under(p, ms[i].path)
  {
    forall q { CountIsScan(ms, q); }
  }

  /** The i-th line is the first that names the path. */
  ghost predicate FirstAt(ms: seq<Mount>, p: string, i: int) {
    0 <= i < |ms| && ms[i].path == p && forall j | 0 <= j < i :: ms[j].path != p
  }

  lemma {:induction false} DeviceAtIsFirst(ms: seq<Mount>, p: string) returns (i: nat)
    ensures DeviceAt(ms, p).Some? <==> Mounted(ms, p)
    ensures Mounted(ms, p) ==> FirstAt(ms, p, i) && DeviceAt(ms, p).value == ms[i].device
  {
    if ms == [] || ms[0].path == p { return 0; }
    var rest := DeviceAtIsFirst(ms[1..], p);
    forall j | 0 < j < |ms| ensures ms[j] == ms[1..][j - 1] {}
    return rest + 1;
  }

  /** ns is ms without the line of its latest mount at p. */
  ghost predicate TakesLatest(ms: seq<Mount>, p: string, ns: seq<Mount>) {
    exists i :: LatestAt(ms, p, i) && ns == ms[..i] + ms[i + 1..]
  }

  ghost predicate LatestAt(ms: seq<Mount>, p: string, i: int) {
    0 <= i < |ms| && ms[i].path == p && forall j | i < j < |ms| :: ms[j].path != p
  }

  lemma {:induction false} UnmountedTakesLatest(ms: seq<Mount>, p: string)
    ensures if Mounted(ms, p) then TakesLatest(ms, p, Unmounted(ms, p)) else Unmounted(ms, p) == ms
  {
    if ms != [] {
      var front, last := ms[..|ms| - 1], ms[|ms| - 1];
      assert ms == front + [last];
      Concat(front, [last], p);
      if last.path == p {
        assert LatestAt(ms, p, |front|) && ms[..|front|] + ms[|front| + 1..] == front;
      } else {
        UnmountedTakesLatest(front, p);
        if Mounted(front, p) { LatestBelow(front, last, p, Unmounted(front, p)); }
      }
    }
  }

  lemma LatestBelow(front: seq<Mount>, last: Mount, p: string, ns: seq<Mount>)
    requires last.path != p && TakesLatest(front, p, ns)
    ensures TakesLatest(front + [last], p, ns + [last])
  {
    var ms := front + [last];
    var i :| LatestAt(front, p, i) && ns == front[..i] + front[i + 1..];
    assert LatestAt(ms, p, i);
    assert ms[..i] + ms[i + 1..] == ns + [last];
  }

  /** At the managed paths the list stands for the map: one mount per path, and the scan is the lookup.
      Elsewhere mounts may be stacked. */
  ghost predicate Represents(managed: iset<string>, ms: seq<Mount>, table: map<string, string>) {
    forall p | p in managed :: Count(ms, p) <= 1 && DeviceAt(ms, p) == if p in table then Some(table[p]) else None
  }

  /** A mount on a free path is a map update ... */
  lemma MountRefinesMap(managed: iset<string>, ms: seq<Mount>, table: map<string, string>, device: string, p: string)
    requires Represents(managed, ms, table) && p in managed && p !in table
    ensures Represents(managed, ms + [Mount(device, p)], table[p := device])
  {
    forall q { MountCounts(ms, device, p, q); }
    Concat(ms, [], p);
  }

  /** ... an unmount is a map removal ... */
  lemma UnmountRefinesMap(managed: iset<string>, ms: seq<Mount>, table: map<string, string>, p: string)
    requires Represents(managed, ms, table)
    ensures Represents(managed, Unmounted(ms, p), table - {p})
  {
    forall q { UnmountedCounts(ms, p, q); }
    Concat(Unmounted(ms, p), [], p);
  }

  ghost function Table(ms: seq<Mount>): map<string, string> {
    if ms == [] then map[] else Table(ms[1..])[ms[0].path := ms[0].device]
  }

  lemma {:induction false} TableIsScan(ms: seq<Mount>, p: string)
    ensures DeviceAt(ms, p) == if p in Table(ms) then Some(Table(ms)[p]) else None
  {
    if ms != [] {
      TableIsScan(ms[1..], p);
    }
  }

  /** ... and a list stands for a map exactly if no managed path carries two mounts. */
  lemma RepresentsSome(managed: iset<string>, ms: seq<Mount>)
    ensures (exists table :: Represents(managed, ms, table)) <==> forall p | p in managed :: Count(ms, p) <= 1
  {
    if forall p | p in managed :: Count(ms, p) <= 1 {
      forall p { TableIsScan(ms, p); }
      assert Represents(managed, ms, Table(ms));
    }
  }

  /** Mounting twice at one path is what must not happen: the map loses a mount the list still has. */
  lemma SecondMountBreaksMap(managed: iset<string>, ms: seq<Mount>, table: map<string, string>, device: string, p: string)
    requires Represents(managed, ms, table) && p in managed
    ensures (exists after :: Represents(managed, ms + [Mount(device, p)], after)) <==> !Mounted(ms, p)
  {
    forall q { MountCounts(ms, device, p, q); }
    RepresentsSome(managed, ms + [Mount(device, p)]);
  }

  lemma UnderTransitive(p: string, q: string, r: string)
    requires Under(p, q) && Under(q, r)
    ensures Under(p, r)
  {
    if p != q && q != r {
      assert r[..|p| + 1] == q[..|p| + 1] == p + "/";
    }
  }

  lemma AncestorsAbove(q: string, a: string)
    requires a in Ancestors(q)
    ensures Under(a, q) && |a| < |q|
  {
    var i :| 0 < i < |q| && q[i] == '/' && a == q[..i];
    assert q[..i + 1] == a + "/";
  }

  /** They are all the directories above. */
  lemma AncestorsAreAbove(q: string, a: string)
    ensures a in Ancestors(q) <==> a != "" && a != q && Under(a, q)
  {
    if a in Ancestors(q) { AncestorsAbove(q, a); }
    if a != "" && a != q && Under(a, q) {
      assert a + "/" <= q;
      assert q[|a|] == '/' && q[..|a|] == a;
    }
  }

  /** p is there now, and every directory above it; nothing else is new. */
  ghost predicate Makes(paths: set<string>, p: string, paths': set<string>) {
    forall q :: q in paths' <==> q in paths || q == p || (q != "" && q + "/" <= p)
  }

  lemma WithDirectoryMakes(paths: set<string>, p: string)
    ensures Makes(paths, p, WithDirectory(paths, p))
  {
    forall q { AncestorsAreAbove(p, q); }
  }

  /** No directory made on the way to q lies at or beneath p, if q itself does not lie beneath p. */
  lemma NoAncestorUnder(p: string, q: string, a: string)
    requires a in Ancestors(q) && (p == q || !Under(p, q))
    ensures !Under(p, a)
  {
    AncestorsAbove(q, a);
    if Under(p, a) { UnderTransitive(p, a, q); }
  }
}
