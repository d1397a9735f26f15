/** The mount options that NodeStageVolume and NodePublishVolume assemble. */
module MountOptions {

  /** The access mode among mount options is the last of the tokens ro and rw. */
  function AccessMode(options: seq<string>): (mode: string)
    ensures mode in {"", "ro", "rw"}
  {
    if options == [] then ""
    else if options[|options| - 1] in {"ro", "rw"} then options[|options| - 1]
    else AccessMode(options[..|options| - 1])
  }

  lemma AccessModeAfter(options: seq<string>, last: string)
    ensures AccessMode(options + [last]) == if last in {"ro", "rw"} then last else AccessMode(options)
  {
    assert (options + [last])[..|options|] == options;
  }

  /** The options of the bind mount: the flags, "bind" and the requested mode, and after them the flags once
      more without "bind" and "ro", in their order. */
  ghost predicate PublishesWith(options: seq<string>, flags: seq<string>, readOnly: bool) {
    && flags + ["bind", if readOnly then "ro" else "rw"] <= options
    && Repeated(options[|flags| + 2..], flags)
    && AccessMode(options) == if readOnly && "rw" !in flags then "ro" else "rw"
  }

  /** The flags that are not "bind" or "ro", in their order. */
  ghost predicate Repeated(options: seq<string>, flags: seq<string>) {
    if flags == [] then options == []
    else
      var front, last := flags[..|flags| - 1], flags[|flags| - 1];
      if last == "bind" || last == "ro" then Repeated(options, front)
      else options != [] && options[|options| - 1] == last && Repeated(options[..|options| - 1], front)
  }

  /** The options of the bind mount: the flags, "bind", the requested mode, and the flags once more
      without "bind" and "ro". So a read-only request is read-only unless the flags say "rw". */
  method PublishOptions(flags: seq<string>, readOnly: bool) returns (options: seq<string>)
    ensures "bind" in options && forall f | f in flags :: f in options
    ensures PublishesWith(options, flags, readOnly)
    ensures forall o | o in options :: o in flags || o == "bind" || o == (if readOnly then "ro" else "rw")
  {
    var mode := if readOnly then "ro" else "rw";
    options := flags + ["bind"];
    options := options + [mode];
    ghost var given := options;
    AccessModeAfter(flags + ["bind"], mode);
    for i := 0 to |flags|
      invariant given <= options && Repeated(options[|given|..], flags[..i])
      invariant AccessMode(options) == if "rw" in flags[..i] then "rw" else mode
      invariant forall o | o in options :: o in flags || o == "bind" || o == mode
    {
      assert flags[..i + 1] == flags[..i] + [flags[i]];
      assert flags[..i + 1][..i] == flags[..i];
      if flags[i] != "bind" && flags[i] != "ro" {
        AccessModeAfter(options, flags[i]);
        assert (options + [flags[i]])[|given|..] == options[|given|..] + [flags[i]];
        options := options + [flags[i]];
      }
    }
    assert flags[..|flags|] == flags;
    assert forall f | f in flags :: f in given;
    assert given[|flags|] == "bind";
  }

  /** The options of the staging mount put the mode first, so the flags have the last word. */
  method StageOptions(flags: seq<string>, readOnly: bool) returns (options: seq<string>)
    ensures AccessMode(options) == if AccessMode(flags) != "" then AccessMode(flags) else if readOnly then "ro" else "rw"
    ensures options == [if readOnly then "ro" else "rw"] + flags
  {
    options := if readOnly then ["ro"] else ["rw"];
    AccessModePrefix(options, flags);
    options := options + flags;
  }

  lemma {:induction false} AccessModePrefix(front: seq<string>, back: seq<string>)
    ensures AccessMode(front + back) == if AccessMode(back) != "" then AccessMode(back) else AccessMode(front)
  {
    if back == [] {
      assert front + back == front;
    } else {
      assert (front + back)[..|front + back| - 1] == front + back[..|back| - 1];
      AccessModePrefix(front, back[..|back| - 1]);
    }
  }
}
