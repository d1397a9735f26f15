/** client.Patch with StrategicMergeFrom: the client sends the difference between the list it read
    and the list it wants; the API server merges that difference, by name, into the list it holds. */
module StrategicMerge {
  import opened Results
  import opened Attachments

  /** Three-way merge of one field. */
  function MergeField<T(==)>(live: T, base: T, wanted: T): T {
    if wanted == base then live else wanted
  }

  /** Three-way merge of the entries filed under one name in the live, the read and the wanted list. An
      added entry is sent whole, its empty fields omitted. */
  function MergeEntry(live: Option<Attachment>, base: Option<Attachment>, wanted: Option<Attachment>): Option<Attachment> {
    match wanted
    case None => if base.Some? then None else live
    case Some(w) =>
      if base == wanted then live
      else if live.None? then wanted
      else
        var l := live.value;
        var b := if base.Some? then base.value else Attachment(w.name, "", None);
        Some(l.(volume := MergeField(l.volume, b.volume, w.volume),
                device := MergeField(l.device, b.device, w.device)))
  }

  /** What the API server may hold after the patch. The order it chooses is left open, except that a
      patch against an unchanged list yields the wanted list. */
  ghost predicate PatchOutcome(base: Attachments, wanted: Attachments, live: Attachments, result: Attachments) {
    && UniqueNames(result)
    && (forall n :: Entry(result, n) == MergeEntry(Entry(live, n), Entry(base, n), Entry(wanted, n)))
    && (live == base ==> result == wanted)
  }

  /** The two demands PatchOutcome makes of an unchanged list agree with each other. */
  lemma UncontestedPatch(base: Attachments, wanted: Attachments)
    requires UniqueNames(wanted)
    ensures PatchOutcome(base, wanted, base, wanted)
  {}

  /** A publish patch computed from a stale list has the effect of publishing on the live one. */
  lemma PublishPatchMerges(base: Attachments, live: Attachments, atomic: Attachments, result: Attachments, v: string)
    requires Tidy(base) && !Attached(base, v)
    requires SameEntries(live, atomic)
    requires PatchOutcome(base, Attach(base, v), live, result)
    ensures SameEntries(result, Attach(atomic, v))
  {
    AttachKeepsOthers(base, v);
    AttachKeepsOthers(atomic, v);
    forall n ensures Entry(result, n) == Entry(Attach(atomic, v), n) {
      assert Entry(live, n) == Entry(atomic, n);
      if Entry(live, n).Some? && n == AttachmentName(v) {
        assert Honest(Entry(live, n).value);
      }
    }
    SameLookupsTidy(result, Attach(atomic, v));
  }

  /** An unpublish patch computed from a stale list has the effect of unpublishing on the live one. */
  lemma UnpublishPatchMerges(base: Attachments, live: Attachments, atomic: Attachments, result: Attachments, v: string)
    requires Tidy(base) && Attached(base, v)
    requires SameEntries(live, atomic)
    requires PatchOutcome(base, Detach(base, v), live, result)
    ensures SameEntries(result, Detach(atomic, v))
  {
    DetachKeepsOthers(base, v);
    DetachKeepsOthers(atomic, v);
    forall n ensures Entry(result, n) == Entry(Detach(atomic, v), n) {
      assert Entry(live, n) == Entry(atomic, n);
    }
    SameLookupsTidy(result, Detach(atomic, v));
  }

  lemma SameLookupsTidy(vs: Attachments, ws: Attachments)
    requires UniqueNames(vs) && Tidy(ws)
    requires forall n :: Entry(vs, n) == Entry(ws, n)
    ensures Tidy(vs)
  {
    forall e | e in vs ensures Honest(e) {
      var i :| 0 <= i < |vs| && vs[i] == e;
      EntryAt(vs, i);
      assert Entry(ws, e.name) == Some(e);
    }
  }

  /** One list in an order of the server's choosing: the merged entries under the given names. */
  ghost function MergeNames(base: Attachments, wanted: Attachments, live: Attachments, names: seq<string>): Attachments {
    if names == [] then []
    else
      var rest := MergeNames(base, wanted, live, names[1..]);
      var merged := MergeEntry(Entry(live, names[0]), Entry(base, names[0]), Entry(wanted, names[0]));
      if merged.Some? && !Named(rest, names[0]) then rest + [merged.value] else rest
  }

  lemma {:induction false} MergeNamesLookup(base: Attachments, wanted: Attachments, live: Attachments, names: seq<string>)
    ensures var vs := MergeNames(base, wanted, live, names);
            && UniqueNames(vs)
            && forall n :: Entry(vs, n) ==
                 if n in names then MergeEntry(Entry(live, n), Entry(base, n), Entry(wanted, n)) else None
  {
    if names != [] {
      var rest := MergeNames(base, wanted, live, names[1..]);
      MergeNamesLookup(base, wanted, live, names[1..]);
      var name := names[0];
      var merged := MergeEntry(Entry(live, name), Entry(base, name), Entry(wanted, name));
      if merged.Some? && !Named(rest, name) {
        UniqueConcat(rest, [merged.value]);
        forall n { EntryConcat(rest, [merged.value], n); }
      }
      assert forall n :: n in names <==> n == name || n in names[1..];
    }
  }

  /** The server always has an outcome to choose, so nothing stated about outcomes is vacuous. */
  lemma PatchHasOutcome(base: Attachments, wanted: Attachments, live: Attachments) returns (result: Attachments)
    requires UniqueNames(wanted)
    ensures PatchOutcome(base, wanted, live, result)
  {
    if live == base { return wanted; }
    var names := seq(|live| + |wanted|, i requires 0 <= i < |live| + |wanted| =>
      if i < |live| then live[i].name else wanted[i - |live|].name);
    result := MergeNames(base, wanted, live, names);
    MergeNamesLookup(base, wanted, live, names);
    forall n | n !in names ensures Entry(live, n).None? && Entry(wanted, n).None? {
      forall e | e in live ensures e.name != n {
        var i :| 0 <= i < |live| && live[i] == e;
        assert names[i] == e.name;
      }
      forall e | e in wanted ensures e.name != n {
        var i :| 0 <= i < |wanted| && wanted[i] == e;
        assert names[|live| + i] == e.name;
      }
    }
  }
}
