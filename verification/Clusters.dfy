/** The API objects the controller reads and writes, and the device name it derives from them. */
module Clusters {
  import opened Int64
  import opened Results
  import opened Attachments

  datatype VolumeState = Pending | Available | VolumeError

  /** Volume.Status.Access. */
  datatype Access = Access(handle: string, hasAttributes: bool)

  datatype Volume = Volume(size: Option<int64>, className: string, state: VolumeState, access: Option<Access>)

  /** Machines and volumes live in the IronCore cluster, nodes in the target cluster. A machine and
      its node share one name. */
  datatype Cluster = Cluster(machines: map<string, Attachments>, volumes: map<string, Volume>, nodes: set<string>)

  const VIRTIO_PREFIX := "/dev/disk/by-id/virtio-"

  function DevicePath(device: string, handle: string): string {
    var name := device + "-" + handle;
    VIRTIO_PREFIX + if |name| > 20 then name[..20] else name
  }

  /** What names a disk in the guest: the virtio links, and in them the disk's serial number, which is the
      device, a dash and the volume's own handle, byte by byte, cut off after 20 bytes. */
  ghost predicate Shows(path: string, device: string, handle: string) {
    && |path| == 23 + (if |device| + 1 + |handle| <= 20 then |device| + 1 + |handle| else 20)
    && path[..23] == "/dev/disk/by-id/virtio-"
    && (forall i | 0 <= i < |device| && i < |path| - 23 :: path[23 + i] == device[i])
    && (|device| < |path| - 23 ==> path[23 + |device|] == '-')
    && forall i | 0 <= i < |handle| && |device| + 1 + i < |path| - 23 :: path[24 + |device| + i] == handle[i]
  }

  lemma DevicePathShows(device: string, handle: string)
    ensures Shows(DevicePath(device, handle), device, handle)
  {
    var name := device + "-" + handle;
    forall i | 0 <= i < |handle| ensures name[|device| + 1 + i] == handle[i] {}
  }

  /** Nothing else looks like it. */
  lemma ShownOnce(path: string, other: string, device: string, handle: string)
    requires Shows(path, device, handle) && Shows(other, device, handle)
    ensures path == other
  {
    forall k | 0 <= k < |path| ensures path[k] == other[k] {
      if k < 23 {
        assert path[k] == path[..23][k] && other[k] == other[..23][k];
      } else if k > 23 + |device| {
        var i := k - 24 - |device|;
        assert path[24 + |device| + i] == handle[i] == other[24 + |device| + i];
      } else if k < 23 + |device| {
        assert path[23 + (k - 23)] == device[k - 23] == other[23 + (k - 23)];
      }
    }
  }

  /** The scan of validateDeviceName: the device of the first entry of that name that has one. */
  function FindDevice(vs: Attachments, name: string): (device: string) {
    if vs == [] then ""
    else
      var device := if vs[0].device.Some? then vs[0].device.value else "";
      if vs[0].name == name && device != "" then device else FindDevice(vs[1..], name)
  }

  /** An entry of that name that the machine controller has given its device. */
  predicate HasDevice(e: Attachment, name: string) {
    e.name == name && e.device.Some? && e.device.value != ""
  }

  /** The i-th entry is the first of that name that has its device. */
  ghost predicate FirstWithDevice(vs: Attachments, name: string, i: int) {
    0 <= i < |vs| && HasDevice(vs[i], name) && forall j | 0 <= j < i :: !HasDevice(vs[j], name)
  }

  lemma {:induction false} FindDeviceIsFirst(vs: Attachments, name: string) returns (i: nat)
    ensures FindDevice(vs, name) == "" <==> forall e | e in vs :: !HasDevice(e, name)
    ensures FindDevice(vs, name) != "" ==> FirstWithDevice(vs, name, i) && vs[i].device.value == FindDevice(vs, name)
  {
    if vs == [] { return 0; }
    var rest := FindDeviceIsFirst(vs[1..], name);
    if HasDevice(vs[0], name) { return 0; }
    forall j | 0 < j < |vs| ensures vs[j] == vs[1..][j - 1] {}
    return rest + 1;
  }

  function ValidateDeviceName(volume: Volume, vs: Attachments, name: string): Result<string> {
    if volume.access.Some? && volume.access.value.hasAttributes && FindDevice(vs, name) != ""
    then Success(DevicePath(FindDevice(vs, name), volume.access.value.handle))
    else Failure(Internal)
  }

  /** A device name is found exactly for a volume with access attributes whose attachment has its device,
      and it shows the first such device and the handle of that very volume. */
  lemma ValidatedName(volume: Volume, vs: Attachments, name: string) returns (i: nat)
    ensures ValidateDeviceName(volume, vs, name).Success? <==>
              && volume.access.Some? && volume.access.value.hasAttributes && exists e | e in vs :: HasDevice(e, name)
    ensures ValidateDeviceName(volume, vs, name).Success? ==>
              && FirstWithDevice(vs, name, i)
              && Shows(ValidateDeviceName(volume, vs, name).value, vs[i].device.value, volume.access.value.handle)
  {
    i := FindDeviceIsFirst(vs, name);
    if volume.access.Some? { DevicePathShows(FindDevice(vs, name), volume.access.value.handle); }
  }

  function DeviceOf(vs: Attachments, name: string): string {
    var e := Entry(vs, name);
    if e.Some? && e.value.device.Some? then e.value.device.value else ""
  }

  /** In a duplicate-free list the scan finds the attachment's own device, if it has one. */
  lemma {:induction false} ScanFindsOwnEntry(vs: Attachments, name: string)
    requires UniqueNames(vs)
    ensures FindDevice(vs, name) == DeviceOf(vs, name)
  {
    if vs != [] {
      ScanFindsOwnEntry(vs[1..], name);
      if vs[0].name == name {
        assert vs == [] + [vs[0]] + vs[1..];
        NamedOnce([], vs[0], vs[1..]);
      }
    }
  }

  /** A device name that the 20-byte truncation leaves recognisable. */
  predicate UsableDevice(device: string) {
    0 < |device| <= 19 && '-' !in device
  }

  function FirstDash(s: string): nat {
    if s == "" || s[0] == '-' then 0 else 1 + FirstDash(s[1..])
  }

  lemma {:induction false} FirstDashAfter(device: string, rest: string)
    requires '-' !in device
    ensures FirstDash(device + "-" + rest) == |device|
  {
    if device != "" {
      assert (device + "-" + rest)[1..] == device[1..] + "-" + rest;
      FirstDashAfter(device[1..], rest);
    } else {
      assert device + "-" + rest == "-" + rest;
    }
  }

  /** What the kernel truncates is always the handle: the device can be read back from the path. */
  lemma DeviceReadBack(device: string, handle: string)
    requires UsableDevice(device)
    ensures var name := DevicePath(device, handle)[|VIRTIO_PREFIX|..];
            FirstDash(name) <= |name| && name[..FirstDash(name)] == device
  {
    var name := DevicePath(device, handle)[|VIRTIO_PREFIX|..];
    assert name[..|device| + 1] == device + "-";
    assert name == device + "-" + name[|device| + 1..];
    FirstDashAfter(device, name[|device| + 1..]);
  }

  /** And so can the handle, as far as it fits: what follows the first dash is the whole of it, or the
      bytes that 20 leave room for. */
  lemma HandleReadBack(device: string, handle: string)
    requires UsableDevice(device)
    ensures var name := DevicePath(device, handle)[|VIRTIO_PREFIX|..];
            && FirstDash(name) < |name|
            && name[FirstDash(name) + 1..] == if |device| + |handle| < 20 then handle else handle[..19 - |device|]
  {
    var name := DevicePath(device, handle)[|VIRTIO_PREFIX|..];
    assert name[..|device| + 1] == device + "-";
    assert name == device + "-" + name[|device| + 1..];
    FirstDashAfter(device, name[|device| + 1..]);
  }

  /** So the path determines the device, whatever the handles. */
  lemma DevicePathDeterminesDevice(path: string, d: string, h: string, e: string, i: string)
    requires UsableDevice(d) && UsableDevice(e)
    requires Shows(path, d, h) && Shows(path, e, i)
    ensures d == e
  {
    DevicePathShows(d, h);
    DevicePathShows(e, i);
    ShownOnce(path, DevicePath(d, h), d, h);
    ShownOnce(path, DevicePath(e, i), e, i);
    DeviceReadBack(d, h);
    DeviceReadBack(e, i);
  }

  /** Twenty bytes are one too many: such devices can differ and yield the same path. */
  lemma LongDevicesCollide(d: string, e: string, h: string, i: string)
    requires |d| >= 20 && |e| >= 20
    ensures DevicePath(d, h) == DevicePath(e, i) <==> d[..20] == e[..20]
  {
    assert (d + "-" + h)[..20] == d[..20];
    assert (e + "-" + i)[..20] == e[..20];
    assert DevicePath(d, h)[|VIRTIO_PREFIX|..] == d[..20];
    assert DevicePath(e, i)[|VIRTIO_PREFIX|..] == e[..20];
  }
}
