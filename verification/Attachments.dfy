/** Machine.Spec.Volumes: an ordered list of named attachments, edited by publish and unpublish. */
module Attachments {
  import opened Results

  /** One entry of Machine.Spec.Volumes. The machine controller fills in the device. */
  datatype Attachment = Attachment(name: string, volume: string, device: Option<string>)

  type Attachments = seq<Attachment>

  function AttachmentName(volumeId: string): string { volumeId + "-attachment" }

  lemma AttachmentNameInjective(v: string, w: string)
    requires AttachmentName(v) == AttachmentName(w)
    ensures v == w
  {
    assert v == AttachmentName(v)[..|AttachmentName(v)| - 11] == AttachmentName(w)[..|AttachmentName(w)| - 11] == w;
  }

  /** slices.IndexFunc on the name: the first entry so named, or -1. */
  function VolumeAttachmentIndex(vs: Attachments, name: string): (idx: int)
    ensures -1 <= idx < |vs|
    ensures idx >= 0 ==> vs[idx].name == name
  {
    if vs == [] then -1
    else if vs[0].name == name then 0
    else
      var rest := VolumeAttachmentIndex(vs[1..], name);
      if rest < 0 then -1 else rest + 1
  }

  /** The entry filed under a name: how the API server reads the list. */
  function Entry(vs: Attachments, name: string): (e: Option<Attachment>)
    ensures e.Some? ==> e.value.name == name && e.value in vs
  {
    if vs == [] then None
    else if vs[0].name == name then Some(vs[0])
    else Entry(vs[1..], name)
  }

  predicate Named(vs: Attachments, name: string) { Entry(vs, name).Some? }

  predicate Attached(vs: Attachments, v: string) { Named(vs, AttachmentName(v)) }

  /** A freshly made attachment has no device yet. */
  function Fresh(v: string): Attachment { Attachment(AttachmentName(v), v, None) }

  /** The edit ControllerPublishVolume makes to the list it has read. */
  function Attach(vs: Attachments, v: string): Attachments {
    if VolumeAttachmentIndex(vs, AttachmentName(v)) < 0 then vs + [Fresh(v)] else vs
  }

  /** The edit ControllerUnpublishVolume makes to the list it has read. */
  function Detach(vs: Attachments, v: string): Attachments {
    var idx := VolumeAttachmentIndex(vs, AttachmentName(v));
    if idx >= 0 then vs[..idx] + vs[idx + 1..] else vs
  }

  /** What the machine controller does: give an attachment its device, once. */
  function SetDevice(vs: Attachments, name: string, device: string): Attachments {
    if vs == [] then []
    else if vs[0].name == name && vs[0].device.None? then [vs[0].(device := Some(device))] + vs[1..]
    else if vs[0].name == name then vs
    else [vs[0]] + SetDevice(vs[1..], name, device)
  }

  ghost predicate UniqueNames(vs: Attachments) {
    forall i, j | 0 <= i < j < |vs| :: vs[i].name != vs[j].name
  }

  /** An entry that carries a driver-made name refers to the volume it is named after. */
  ghost predicate Honest(e: Attachment) {
    forall v | e.name == AttachmentName(v) :: e.volume == v
  }

  ghost predicate Tidy(vs: Attachments) {
    UniqueNames(vs) && forall e | e in vs :: Honest(e)
  }

  lemma {:induction false} NamedAt(vs: Attachments, i: nat)
    requires i < |vs|
    ensures Named(vs, vs[i].name)
  {
    if i > 0 && vs[0].name != vs[i].name {
      NamedAt(vs[1..], i - 1);
    }
  }

  lemma EntryAt(vs: Attachments, i: nat)
    requires UniqueNames(vs) && i < |vs|
    ensures Entry(vs, vs[i].name) == Some(vs[i])
  {
    NamedAt(vs, i);
  }

  lemma {:induction false} EntryConcat(vs: Attachments, ws: Attachments, name: string)
    ensures Entry(vs + ws, name) == if Named(vs, name) then Entry(vs, name) else Entry(ws, name)
  {
    if vs == [] {
      assert vs + ws == ws;
    } else {
      assert (vs + ws)[1..] == vs[1..] + ws;
      EntryConcat(vs[1..], ws, name);
    }
  }

  lemma UniqueConcat(vs: Attachments, ws: Attachments)
    requires UniqueNames(vs) && UniqueNames(ws)
    requires forall e | e in ws :: !Named(vs, e.name)
    ensures UniqueNames(vs + ws)
  {
    forall i, j | 0 <= i < j < |vs + ws| ensures (vs + ws)[i].name != (vs + ws)[j].name {
      if i < |vs| <= j {
        NamedAt(vs, i);
        assert ws[j - |vs|] in ws;
      }
    }
  }

  /** The index is negative exactly when nothing is so named; otherwise it splits off the first match. */
  lemma {:induction false} IndexFindsFirst(vs: Attachments, name: string)
    ensures var idx := VolumeAttachmentIndex(vs, name);
            && (idx < 0 <==> !Named(vs, name))
            && (idx >= 0 ==> Entry(vs, name) == Some(vs[idx]) && !Named(vs[..idx], name))
  {
    if vs != [] && vs[0].name != name {
      IndexFindsFirst(vs[1..], name);
      var rest := VolumeAttachmentIndex(vs[1..], name);
      if rest >= 0 {
        assert vs[..rest + 1][1..] == vs[1..][..rest];
      }
    }
  }

  /** The i-th entry is the first of that name. */
  ghost predicate FirstNamed(vs: Attachments, name: string, i: int) {
    0 <= i < |vs| && vs[i].name == name && forall j | 0 <= j < i :: vs[j].name != name
  }

  lemma {:induction false} IndexIsFirst(vs: Attachments, name: string)
    ensures var idx := VolumeAttachmentIndex(vs, name);
            (if idx < 0 then forall e | e in vs :: e.name != name else FirstNamed(vs, name, idx))
  {
    if vs != [] && vs[0].name != name {
      IndexIsFirst(vs[1..], name);
      forall j | 0 < j < |vs| ensures vs[j] == vs[1..][j - 1] {}
    }
  }

  /** Publishing appends an entry that refers to the volume and has no device, if none is so named. */
  lemma AttachAppends(vs: Attachments, v: string)
    ensures if exists e :: e in vs && e.name == v + "-attachment" then Attach(vs, v) == vs
            else Attach(vs, v) == vs + [Attachment(v + "-attachment", v, None)]
  {
    IndexIsFirst(vs, AttachmentName(v));
  }

  /** ws is vs without its first entry of that name. */
  ghost predicate CutsFirst(vs: Attachments, name: string, ws: Attachments) {
    exists i :: FirstNamed(vs, name, i) && ws == vs[..i] + vs[i + 1..]
  }

  /** Unpublishing cuts out the first entry of the name, if there is one. */
  lemma DetachCutsFirst(vs: Attachments, v: string)
    ensures if exists e :: e in vs && e.name == v + "-attachment"
            then CutsFirst(vs, v + "-attachment", Detach(vs, v))
            else Detach(vs, v) == vs
  {
    IndexIsFirst(vs, AttachmentName(v));
    var idx := VolumeAttachmentIndex(vs, AttachmentName(v));
    if idx >= 0 { assert FirstNamed(vs, v + "-attachment", idx); }
  }

  function Without(vs: Attachments, name: string): Attachments {
    if vs == [] then [] else (if vs[0].name == name then [] else [vs[0]]) + Without(vs[1..], name)
  }

  lemma {:induction false} WithoutAbsent(vs: Attachments, name: string)
    requires !Named(vs, name)
    ensures Without(vs, name) == vs
  {
    if vs != [] {
      WithoutAbsent(vs[1..], name);
    }
  }

  lemma {:induction false} WithoutConcat(vs: Attachments, ws: Attachments, name: string)
    ensures Without(vs + ws, name) == Without(vs, name) + Without(ws, name)
  {
    if vs == [] {
      assert vs + ws == ws;
    } else {
      assert (vs + ws)[1..] == vs[1..] + ws;
      WithoutConcat(vs[1..], ws, name);
    }
  }

  lemma {:induction false} WithoutLookup(vs: Attachments, name: string, n: string)
    ensures Entry(Without(vs, name), n) == if n == name then None else Entry(vs, n)
  {
    if vs != [] {
      var rest := Without(vs[1..], name);
      WithoutLookup(vs[1..], name, n);
      if vs[0].name != name {
        EntryConcat([vs[0]], rest, n);
      } else {
        assert Without(vs, name) == rest;
      }
    }
  }

  lemma {:induction false} WithoutTidy(vs: Attachments, name: string)
    requires Tidy(vs)
    ensures Tidy(Without(vs, name)) && forall e | e in Without(vs, name) :: e in vs
  {
    if vs != [] {
      WithoutTidy(vs[1..], name);
      var rest := Without(vs[1..], name);
      if vs[0].name != name {
        assert Without(vs, name) == [vs[0]] + rest;
        assert forall e | e in rest :: e.name != vs[0].name;
        UniqueConcat([vs[0]], rest);
      } else {
        assert Without(vs, name) == rest;
      }
    }
  }

  lemma NamedOnce(front: Attachments, e: Attachment, back: Attachments)
    requires UniqueNames(front + [e] + back)
    ensures !Named(back, e.name)
  {
    var all := front + [e] + back;
    forall x | x in back ensures x.name != e.name {
      var j :| 0 <= j < |back| && back[j] == x;
      assert all[|front|] == e && all[|front| + 1 + j] == x;
    }
  }

  lemma WithoutMiddle(front: Attachments, e: Attachment, back: Attachments)
    requires !Named(front, e.name) && !Named(back, e.name)
    ensures Without(front + [e] + back, e.name) == front + back
  {
    WithoutConcat(front + [e], back, e.name);
    WithoutConcat(front, [e], e.name);
    WithoutAbsent(front, e.name);
    WithoutAbsent(back, e.name);
  }

  /** Deleting the first entry of a name deletes every entry of that name. */
  lemma DetachIsWithout(vs: Attachments, v: string)
    requires UniqueNames(vs)
    ensures Detach(vs, v) == Without(vs, AttachmentName(v))
  {
    var idx := VolumeAttachmentIndex(vs, AttachmentName(v));
    IndexFindsFirst(vs, AttachmentName(v));
    if idx < 0 {
      WithoutAbsent(vs, AttachmentName(v));
    } else {
      var front, e, back := vs[..idx], vs[idx], vs[idx + 1..];
      assert vs == front + [e] + back;
      NamedOnce(front, e, back);
      WithoutMiddle(front, e, back);
    }
  }

  lemma HonestName(v: string)
    ensures Honest(Fresh(v))
  {
    forall w | AttachmentName(v) == AttachmentName(w) ensures w == v { AttachmentNameInjective(v, w); }
  }

  /** Publishing keeps the list duplicate-free and touches no other name. */
  lemma AttachKeepsOthers(vs: Attachments, v: string)
    requires Tidy(vs)
    ensures Tidy(Attach(vs, v)) && Attached(Attach(vs, v), v)
    ensures forall n :: Entry(Attach(vs, v), n) ==
                        if n == AttachmentName(v) && !Named(vs, n) then Some(Fresh(v)) else Entry(vs, n)
  {
    IndexFindsFirst(vs, AttachmentName(v));
    if !Attached(vs, v) {
      HonestName(v);
      UniqueConcat(vs, [Fresh(v)]);
      forall n { EntryConcat(vs, [Fresh(v)], n); }
    }
  }

  /** Unpublishing removes that one name and leaves the rest in place. */
  lemma DetachKeepsOthers(vs: Attachments, v: string)
    requires Tidy(vs)
    ensures Tidy(Detach(vs, v)) && !Attached(Detach(vs, v), v)
    ensures forall n :: Entry(Detach(vs, v), n) == if n == AttachmentName(v) then None else Entry(vs, n)
  {
    DetachIsWithout(vs, v);
    WithoutTidy(vs, AttachmentName(v));
    forall n { WithoutLookup(vs, AttachmentName(v), n); }
  }

  lemma {:induction false} SetDeviceLookup(vs: Attachments, name: string, device: string, n: string)
    ensures Entry(SetDevice(vs, name, device), n) ==
            if n == name && Named(vs, n) && Entry(vs, n).value.device.None?
            then Some(Entry(vs, n).value.(device := Some(device))) else Entry(vs, n)
  {
    if vs != [] && vs[0].name != name {
      SetDeviceLookup(vs[1..], name, device, n);
    }
  }

  lemma {:induction false} SetDeviceNames(vs: Attachments, name: string, device: string)
    ensures var ws := SetDevice(vs, name, device);
            |ws| == |vs| && forall i | 0 <= i < |vs| :: ws[i].name == vs[i].name && ws[i].volume == vs[i].volume
  {
    if vs != [] && vs[0].name != name {
      SetDeviceNames(vs[1..], name, device);
    }
  }

  /** Assigning a device changes the device of that one name, and only from unset. */
  lemma SetDeviceKeepsOthers(vs: Attachments, name: string, device: string)
    requires Tidy(vs)
    ensures Tidy(SetDevice(vs, name, device))
    ensures forall n :: Entry(SetDevice(vs, name, device), n) ==
                        if n == name && Named(vs, n) && Entry(vs, n).value.device.None?
                        then Some(Entry(vs, n).value.(device := Some(device))) else Entry(vs, n)
  {
    forall n { SetDeviceLookup(vs, name, device, n); }
    SetDeviceNames(vs, name, device);
    var ws := SetDevice(vs, name, device);
    forall e | e in ws ensures Honest(e) {
      var i :| 0 <= i < |ws| && ws[i] == e;
      assert vs[i] in vs && Honest(vs[i]);
    }
  }

  /** Two duplicate-free lists with the same entry under every name, in whatever order. */
  ghost predicate SameEntries(vs: Attachments, ws: Attachments) {
    Tidy(vs) && Tidy(ws) && forall n :: Entry(vs, n) == Entry(ws, n)
  }

  lemma MemberTransfers(vs: Attachments, ws: Attachments, e: Attachment)
    requires SameEntries(vs, ws) && e in vs
    ensures e in ws
  {
    var i :| 0 <= i < |vs| && vs[i] == e;
    EntryAt(vs, i);
    assert Entry(ws, e.name) == Some(e);
  }

  lemma OccursOnce(vs: Attachments, e: Attachment)
    requires UniqueNames(vs)
    ensures multiset(vs)[e] == if e in vs then 1 else 0
  {
    if vs != [] {
      OccursOnce(vs[1..], e);
      assert vs == [vs[0]] + vs[1..];
    }
  }

  /** Same entries means: a permutation. Nothing lost, nothing duplicated, nothing altered. */
  lemma SameEntriesIsPermutation(vs: Attachments, ws: Attachments)
    requires SameEntries(vs, ws)
    ensures multiset(vs) == multiset(ws)
  {
    forall e ensures multiset(vs)[e] == multiset(ws)[e] {
      OccursOnce(vs, e);
      OccursOnce(ws, e);
      if e in vs { MemberTransfers(vs, ws, e); }
      if e in ws { MemberTransfers(ws, vs, e); }
    }
  }

  /** The edits do not depend on the order of the list. */
  lemma AttachRespectsSameEntries(vs: Attachments, ws: Attachments, v: string)
    requires SameEntries(vs, ws)
    ensures SameEntries(Attach(vs, v), Attach(ws, v))
  {
    AttachKeepsOthers(vs, v);
    AttachKeepsOthers(ws, v);
    forall n ensures Entry(Attach(vs, v), n) == Entry(Attach(ws, v), n) {
      assert Entry(vs, n) == Entry(ws, n);
    }
  }

  lemma DetachRespectsSameEntries(vs: Attachments, ws: Attachments, v: string)
    requires SameEntries(vs, ws)
    ensures SameEntries(Detach(vs, v), Detach(ws, v))
  {
    DetachKeepsOthers(vs, v);
    DetachKeepsOthers(ws, v);
    forall n ensures Entry(Detach(vs, v), n) == Entry(Detach(ws, v), n) {
      assert Entry(vs, n) == Entry(ws, n);
    }
  }

  lemma SetDeviceRespectsSameEntries(vs: Attachments, ws: Attachments, name: string, device: string)
    requires SameEntries(vs, ws)
    ensures SameEntries(SetDevice(vs, name, device), SetDevice(ws, name, device))
  {
    SetDeviceKeepsOthers(vs, name, device);
    SetDeviceKeepsOthers(ws, name, device);
    forall n ensures Entry(SetDevice(vs, name, device), n) == Entry(SetDevice(ws, name, device), n) {
      assert Entry(vs, n) == Entry(ws, n);
    }
  }
}
