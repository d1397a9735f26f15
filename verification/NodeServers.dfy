/** The node RPCs, system call by system call. Every call may fail, and a failing one may have had its
    effect, or part of it; failures counts the calls that failed. */
module NodeServers {
  import opened Int64
  import opened Results
  import opened Capacity
  import opened Expansion
  import opened Capabilities
  import opened MountOptions
  import opened MountTable
  import opened NodeProtocol
  import opened NodeEffects

  class NodeServer {
    var mounts: seq<Mount>
    var paths: set<string>
    var deviceSizes: map<string, int64>
    ghost var failures: nat
    /** The options of the mounts asked for so far. */
    ghost var requested: seq<seq<string>>
    /** A recursive deletion has been let loose on a path with something mounted at or beneath it. */
    ghost var reachedMount: bool

    ghost function View(): Fs
      reads this
    {
      Fs(mounts, paths)
    }

    /** A call that only looks, or whose effect lies outside this model. */
    method SystemCall() returns (ok: bool)
      modifies this`failures
      ensures failures == if ok then old(failures) else old(failures) + 1
    {
      ok := *;
      if !ok { failures := failures + 1; }
    }

    method MkdirAll(p: string) returns (ok: bool)
      modifies this`paths, this`failures
      ensures failures == if ok then old(failures) else old(failures) + 1
      ensures MkdirOutcome(old(View()), p, ok, View())
    {
      ok := SystemCall();
      var made := Ancestors(p) + {p};
      if !ok {
        var part: set<string> := *;
        made := if p in part then made else made * part;
      }
      paths := paths + made;
    }

    method MountAt(device: string, p: string, options: seq<string>) returns (ok: bool)
      modifies this`mounts, this`failures, this`requested
      ensures failures == if ok then old(failures) else old(failures) + 1
      ensures requested == old(requested) + [options]
      ensures MountOutcome(old(View()), device, p, ok, View())
    {
      ok := SystemCall();
      var applied: bool := *;
      if ok || applied { mounts := mounts + [Mount(device, p)]; }
      requested := requested + [options];
    }

    method Unmount(p: string) returns (ok: bool)
      modifies this`mounts, this`failures
      ensures failures == if ok then old(failures) else old(failures) + 1
      ensures UnmountOutcome(old(View()), p, ok, View())
    {
      ok := SystemCall();
      var applied: bool := *;
      if ok || applied { mounts := Unmounted(mounts, p); }
    }

    /** Deletes p recursively. Where something is still mounted it deletes what is mounted there, and then
        fails: a mount point cannot be removed. */
    method RemoveAll(p: string) returns (ok: bool)
      modifies this`paths, this`failures, this`reachedMount
      ensures failures == if ok then old(failures) else old(failures) + 1
      ensures RemoveOutcome(old(View()), p, ok, View())
      ensures ok ==> Deletable(mounts, p)
      ensures reachedMount <==> old(reachedMount) || !Deletable(mounts, p)
    {
      ok := SystemCall();
      DeletableIsScan(mounts, p);
      if exists i | 0 <= i < |mounts| :: Under(p, mounts[i].path) {
        if ok { failures := failures + 1; }
        ok := false;
        reachedMount := true;
      }
      var gone := Beneath(paths, p);
      if !ok {
        var part: set<string> := *;
        gone := gone * part;
      }
      paths := paths - gone;
    }

    /** The first line of the mount table that names the path; "" if there is none. */
    method GetMountDeviceName(mountPath: string) returns (r: Result<string>)
      modifies this`failures
      ensures failures == if r.Success? then old(failures) else old(failures) + 1
      ensures r.Success? ==>
                && r.value == DeviceName(mounts, mountPath)
                && (if exists m :: m in mounts && m.path == mountPath
                    then exists i :: FirstAt(mounts, mountPath, i) && r.value == mounts[i].device
                    else r.value == "")
    {
      var ok := SystemCall();
      if !ok { return Failure(Internal); }
      var device, i := "", 0;
      ghost var first := DeviceAtIsFirst(mounts, mountPath);
      MountedIsListed(mounts, mountPath);
      while i < |mounts|
        invariant 0 <= i <= |mounts| && device == ""
        invariant DeviceAt(mounts, mountPath) == DeviceAt(mounts[i..], mountPath)
      {
        if mounts[i].path == mountPath {
          device := mounts[i].device;
          break;
        }
        i := i + 1;
      }
      return Success(device);
    }

    method NodeStageVolume(device: string, path: string, flags: seq<string>, readOnly: bool) returns (r: Result<()>)
      modifies this`mounts, this`paths, this`failures, this`requested
      ensures Effect(Stage(device, path), old(View()), r.Success?, View())
      ensures r.Success? ==>
                if exists m :: m in old(mounts) && m.path == path
                then View() == old(View()) && requested == old(requested)
                else
                  && mounts == old(mounts) + [Mount(device, path)]
                  && Makes(old(paths), path, paths)
                  && requested == old(requested) + [[if readOnly then "ro" else "rw"] + flags]
      ensures r.Success? <==> device in old(paths) && failures == old(failures)
      ensures r == Failure(Unavailable) <==> device !in old(paths) && failures == old(failures)
      ensures r.Failure? ==> r.error in {Unavailable, Internal}
    {
      var ok := SystemCall();
      if !ok { return Failure(Internal); }
      if device !in paths { return Failure(Unavailable); }
      ok := SystemCall();
      if !ok { return Failure(Internal); }
      MountedIsListed(mounts, path);
      if Mounted(mounts, path) { return Success(()); }
      ok := MkdirAll(path);
      WithDirectoryMakes(old(paths), path);
      if !ok { return Failure(Internal); }
      var options := StageOptions(flags, readOnly);
      ghost var made := View();
      ok := MountAt(device, path, options);
      assert Backs(Stage(device, path), old(View()), device);
      if !ok { return Failure(Internal); }
      return Success(());
    }

    method NodePublishVolume(volumeId: string, stagePath: string, targetPath: string,
        flags: Option<seq<string>>, readOnly: bool)
      returns (r: Result<()>)
      modifies this`mounts, this`paths, this`failures, this`requested
      ensures r.Success? && flags.Some? ==>
                if exists m :: m in old(mounts) && m.path == targetPath
                then View() == old(View()) && requested == old(requested)
                else
                  && |mounts| == |old(mounts)| + 1 && mounts[..|old(mounts)|] == old(mounts)
                  && mounts[|old(mounts)|].path == targetPath
                  && (forall i | FirstAt(old(mounts), stagePath, i) :: mounts[|old(mounts)|].device == old(mounts)[i].device)
                  && (targetPath in old(paths) ==> paths == old(paths))
                  && (targetPath !in old(paths) ==> Makes(old(paths), targetPath, paths))
                  && |requested| == |old(requested)| + 1 && requested[..|old(requested)|] == old(requested)
                  && PublishesWith(requested[|old(requested)|], flags.value, readOnly)
      ensures var complete := volumeId != "" && stagePath != "" && targetPath != "" && flags.Some?;
              && (r == Failure(InvalidArgument) <==> !complete)
              && (complete ==> Effect(Publish(stagePath, targetPath), old(View()), r.Success?, View()))
              && (!complete ==> View() == old(View()))
              && (r.Success? <==> complete && failures == old(failures))
              && (complete && r.Failure? ==> r.error in {Internal, Unknown})
      ensures r == Failure(Unknown) ==> targetPath !in old(paths) && !Mounted(old(mounts), targetPath)
      ensures requested == old(requested) && paths != old(paths) ==> r == Failure(Unknown)
      ensures requested != old(requested) && r.Failure? ==> r.error == Internal
    {
      if volumeId == "" { return Failure(InvalidArgument); }
      if stagePath == "" { return Failure(InvalidArgument); }
      if targetPath == "" { return Failure(InvalidArgument); }
      if flags.None? { return Failure(InvalidArgument); }
      var options := PublishOptions(flags.value, readOnly);
      var ok := SystemCall();
      if !ok { return Failure(Internal); }
      MountedIsListed(mounts, targetPath);
      if !Mounted(mounts, targetPath) {
        if targetPath !in paths {
          ok := MkdirAll(targetPath);
          WithDirectoryMakes(old(paths), targetPath);
          if !ok { return Failure(Unknown); }
        }
        ghost var first := DeviceAtIsFirst(mounts, stagePath);
        MountedIsListed(mounts, stagePath);
        var device := DeviceName(mounts, stagePath);
        ok := MountAt(device, targetPath, options);
        assert Backs(Publish(stagePath, targetPath), old(View()), device);
        if !ok { return Failure(Internal); }
      }
      return Success(());
    }

    method NodeUnstageVolume(volumeId: string, stagePath: string) returns (r: Result<()>)
      modifies this`mounts, this`paths, this`failures, this`reachedMount
      ensures var complete := volumeId != "" && stagePath != "";
              && (r == Failure(InvalidArgument) <==> !complete)
              && (complete ==> Effect(Unstage(stagePath), old(View()), r.Success?, View()))
              && (!complete ==> View() == old(View()))
              && (r.Success? <==> complete && failures == old(failures) && DeviceName(old(mounts), stagePath) != "")
              && (complete && r.Failure? ==> r.error == Internal)
      ensures r.Success? ==>
                && CleanAt(old(mounts), stagePath)
                && (forall m | m in mounts :: m.path != stagePath && !(stagePath + "/" <= m.path))
                && TakesLatest(old(mounts), stagePath, mounts)
                && forall q :: q in paths <==> q in old(paths) && q != stagePath && !(stagePath + "/" <= q)
      ensures CleanAt(old(mounts), stagePath) ==> reachedMount == old(reachedMount)
    {
      if volumeId == "" { return Failure(InvalidArgument); }
      if stagePath == "" { return Failure(InvalidArgument); }
      var devicePath := GetMountDeviceName(stagePath);
      Concat(mounts, [], stagePath);
      if devicePath.Failure? { return Failure(Internal); }
      if devicePath.value == "" { return Failure(Internal); }
      DeletableAfterUnmount(mounts, stagePath);
      UnmountedTakesLatest(mounts, stagePath);
      var ok := Unmount(stagePath);
      DeletableIsScan(mounts, stagePath);
      if !ok { return Failure(Internal); }
      ok := RemoveAll(stagePath);
      if !ok { return Failure(Internal); }
      return Success(());
    }

    method NodeUnpublishVolume(volumeId: string, targetPath: string) returns (r: Result<()>)
      modifies this`mounts, this`paths, this`failures, this`reachedMount
      ensures var complete := volumeId != "" && targetPath != "";
              && (r == Failure(InvalidArgument) <==> !complete)
              && (complete ==> Effect(Unpublish(targetPath), old(View()), r.Success?, View()))
              && (!complete ==> View() == old(View()))
              && (r.Success? <==> complete && failures == old(failures) && targetPath in old(paths))
              && (complete && r.Failure? ==> r.error == Internal)
      ensures r.Success? ==>
                && CleanAt(old(mounts), targetPath)
                && (forall m | m in mounts :: m.path != targetPath && !(targetPath + "/" <= m.path))
                && (if exists m :: m in old(mounts) && m.path == targetPath then TakesLatest(old(mounts), targetPath, mounts)
                    else mounts == old(mounts))
                && forall q :: q in paths <==> q in old(paths) && q != targetPath && !(targetPath + "/" <= q)
      ensures CleanAt(old(mounts), targetPath) ==> reachedMount == old(reachedMount)
    {
      if volumeId == "" { return Failure(InvalidArgument); }
      if targetPath == "" { return Failure(InvalidArgument); }
      var ok := SystemCall();
      if !ok || targetPath !in paths { return Failure(Internal); }
      ok := SystemCall();
      if !ok { return Failure(Internal); }
      MountedIsListed(mounts, targetPath);
      UnmountedTakesLatest(mounts, targetPath);
      if Mounted(mounts, targetPath) {
        DeletableAfterUnmount(mounts, targetPath);
        ok := Unmount(targetPath);
        if !ok { return Failure(Internal); }
      } else {
        UnmountedAbsent(mounts, targetPath);
      }
      DeletableIsScan(mounts, targetPath);
      ok := RemoveAll(targetPath);
      if !ok { return Failure(Internal); }
      return Success(());
    }

    /** The device sizes are those after the filesystem has been resized. A path that is not mounted has
        the device name "", which is passed on as it is. */
    method NodeExpandVolume(volumeId: string, volumePath: string, range: Option<CapacityRange>, mode: Option<AccessMode>)
      returns (r: Result<int64>)
      modifies this`failures
      ensures var complete := volumeId != "" && volumePath != "" && (mode.None? || mode == Some(SingleNodeWriter))
                              && (range.None? || (range.value.required > 0
                                                  && (range.value.limit <= 0 || range.value.required <= range.value.limit)));
              var required := if range.Some? then range.value.required else 0;
              var device := DeviceName(mounts, volumePath);
              && (r.Success? <==>
                    complete && failures == old(failures) && device in deviceSizes && required <= deviceSizes[device])
              && (r.Success? ==> r.value == deviceSizes[device] && required <= r.value)
              && (complete && r.Failure? ==> r.error == Internal)
      ensures volumeId == "" || volumePath == "" || (range.Some? && range.value.required <= 0) ==> r == Failure(InvalidArgument)
      ensures volumeId != "" && volumePath != "" && range.Some? && range.value.required > 0 ==>
                (r == Failure(OutOfRange) <==> 0 < range.value.limit < range.value.required)
      ensures mode.Some? && mode.value != SingleNodeWriter ==> r.Failure? && r.error in {InvalidArgument, OutOfRange}
      ensures var device := DeviceName(mounts, volumePath);
              var complete := volumeId != "" && volumePath != "" && CheckNodeRange(range).Success?
                              && (mode.None? || mode == Some(SingleNodeWriter));
              && (complete && failures == old(failures) && device in deviceSizes ==> r == NodeExpandAnswer(range, deviceSizes[device]))
              && (complete && !(failures == old(failures) && device in deviceSizes) ==> r == Failure(Internal))
              && (!complete ==>
                    r == Failure(if volumeId == "" || volumePath == "" || CheckNodeRange(range).Success?
                                 then InvalidArgument else CheckNodeRange(range).error))
    {
      if volumeId == "" { return Failure(InvalidArgument); }
      if volumePath == "" { return Failure(InvalidArgument); }
      var required := if range.Some? then range.value.required else 0;
      if range.Some? && required <= 0 { return Failure(InvalidArgument); }
      var limit := if range.Some? then range.value.limit else 0;
      if range.Some? && limit > 0 && limit < required { return Failure(OutOfRange); }
      if mode.Some? {
        var modes := [mode.value];
        var valid := IsValidVolumeCapabilities(modes);
        assert valid <==> modes[0] == SingleNodeWriter;
        if !valid { return Failure(InvalidArgument); }
      }
      var device := GetMountDeviceName(volumePath);
      if device.Failure? { return Failure(Internal); }
      var ok := SystemCall();
      if !ok { return Failure(Internal); }
      ok := SystemCall();
      if !ok { return Failure(Internal); }
      ok := SystemCall();
      if !ok || device.value !in deviceSizes { return Failure(Internal); }
      var size := deviceSizes[device.value];
      if size < required { return Failure(Internal); }
      return Success(size);
    }
  }
}
