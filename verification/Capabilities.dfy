/** isValidVolumeCapabilities: only single-node writers are supported. */
module Capabilities {

  datatype AccessMode =
    | SingleNodeWriter | SingleNodeReaderOnly | MultiNodeReaderOnly | MultiNodeSingleWriter | MultiNodeMultiWriter

  const VOLUME_CAPS: seq<AccessMode> := [SingleNodeWriter]

  method HasSupport(mode: AccessMode) returns (supported: bool)
    ensures supported <==> mode == SingleNodeWriter
  {
    supported := false;
    for k := 0 to |VOLUME_CAPS|
      invariant supported <==> mode in VOLUME_CAPS[..k]
    {
      if VOLUME_CAPS[k] == mode { return true; }
    }
    assert VOLUME_CAPS[..|VOLUME_CAPS|] == [SingleNodeWriter];
  }

  /** All requested modes are supported; the loop looks at every one of them. */
  method IsValidVolumeCapabilities(modes: seq<AccessMode>) returns (foundAll: bool)
    ensures foundAll <==> forall i | 0 <= i < |modes| :: modes[i] == SingleNodeWriter
  {
    foundAll := true;
    for i := 0 to |modes|
      invariant foundAll <==> forall j | 0 <= j < i :: modes[j] == SingleNodeWriter
    {
      var supported := HasSupport(modes[i]);
      if !supported { foundAll := false; }
    }
  }
}
