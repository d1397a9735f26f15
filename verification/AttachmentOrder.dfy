/** What a machine's list looks like after any sequence of publishes and unpublishes, one at a time. */
module AttachmentOrder {
  import opened Attachments

  datatype Edit = Publish(volume: string) | Unpublish(volume: string)

  function ApplyEdit(vs: Attachments, e: Edit): Attachments {
    match e
    case Publish(v) => Attach(vs, v)
    case Unpublish(v) => Detach(vs, v)
  }

  function ApplyEdits(vs: Attachments, edits: seq<Edit>): Attachments {
    if edits == [] then vs else ApplyEdit(ApplyEdits(vs, edits[..|edits| - 1]), edits[|edits| - 1])
  }

  /** Volume v has been published before edit i and not unpublished since; or it was there all along. */
  ghost predicate Holds(initial: Attachments, edits: seq<Edit>, i: nat, v: string)
    requires i <= |edits|
  {
    || (Attached(initial, v) && Unpublish(v) !in edits[..i])
    || exists j | 0 <= j < i :: edits[j] == Publish(v) && Unpublish(v) !in edits[j..i]
  }

  /** Edit i is the first publish of its volume since its last removal, and is never undone. */
  ghost predicate Lasts(initial: Attachments, edits: seq<Edit>, i: nat)
    requires i < |edits|
  {
    && edits[i].Publish?
    && !Holds(initial, edits, i, edits[i].volume)
    && Unpublish(edits[i].volume) !in edits[i..]
  }

  /** The initial entries never removed, in their original order. */
  ghost function Kept(initial: Attachments, edits: seq<Edit>): Attachments {
    if initial == [] then []
    else
      (if exists v :: initial[0].name == AttachmentName(v) && Unpublish(v) in edits then [] else [initial[0]])
      + Kept(initial[1..], edits)
  }

  /** The lasting publishes among the first n edits, in order. */
  ghost function Added(initial: Attachments, edits: seq<Edit>, n: nat): Attachments
    requires n <= |edits|
  {
    if n == 0 then []
    else Added(initial, edits, n - 1) + if Lasts(initial, edits, n - 1) then [Fresh(edits[n - 1].volume)] else []
  }

  lemma {:induction false} KeptAfter(initial: Attachments, edits: seq<Edit>, e: Edit)
    ensures Kept(initial, edits + [e]) ==
            if e.Publish? then Kept(initial, edits) else Without(Kept(initial, edits), AttachmentName(e.volume))
  {
    if initial != [] {
      KeptAfter(initial[1..], edits, e);
      var first := if exists v :: initial[0].name == AttachmentName(v) && Unpublish(v) in edits then [] else [initial[0]];
      assert Kept(initial, edits) == first + Kept(initial[1..], edits);
      if e.Unpublish? {
        WithoutConcat(first, Kept(initial[1..], edits), AttachmentName(e.volume));
        assert Unpublish(e.volume) in edits + [e];
      }
    }
  }

  lemma HoldsPrefix(initial: Attachments, edits: seq<Edit>, e: Edit, i: nat, v: string)
    requires i <= |edits|
    ensures Holds(initial, edits + [e], i, v) == Holds(initial, edits, i, v)
  {
    assert (edits + [e])[..i] == edits[..i];
    assert forall j | 0 <= j < i :: (edits + [e])[j..i] == edits[j..i] && (edits + [e])[j] == edits[j];
  }

  lemma LastsAfter(initial: Attachments, edits: seq<Edit>, e: Edit, i: nat)
    requires i < |edits|
    ensures Lasts(initial, edits + [e], i) <==> Lasts(initial, edits, i) && e != Unpublish(edits[i].volume)
  {
    HoldsPrefix(initial, edits, e, i, edits[i].volume);
    assert (edits + [e])[i..] == edits[i..] + [e];
  }

  lemma WithoutFresh(front: Attachments, v: string, w: string)
    ensures Without(front + [Fresh(v)], AttachmentName(w)) ==
            if v == w then Without(front, AttachmentName(w)) else Without(front, AttachmentName(w)) + [Fresh(v)]
  {
    WithoutConcat(front, [Fresh(v)], AttachmentName(w));
    if AttachmentName(v) == AttachmentName(w) { AttachmentNameInjective(v, w); }
  }

  lemma {:induction false} AddedAfter(initial: Attachments, edits: seq<Edit>, e: Edit, n: nat)
    requires n <= |edits|
    ensures Added(initial, edits + [e], n) ==
            if e.Publish? then Added(initial, edits, n) else Without(Added(initial, edits, n), AttachmentName(e.volume))
  {
    if n > 0 {
      var v, longer, front := edits[n - 1].volume, edits + [e], Added(initial, edits, n - 1);
      AddedAfter(initial, edits, e, n - 1);
      LastsAfter(initial, edits, e, n - 1);
      assert longer[n - 1] == edits[n - 1];
      if Lasts(initial, edits, n - 1) {
        WithoutFresh(front, v, e.volume);
      } else {
        assert Added(initial, edits, n) == front;
        assert Added(initial, longer, n) == Added(initial, longer, n - 1);
      }
    }
  }

  /** One more edit of v decides; an edit of another volume changes nothing. */
  lemma HoldsAfter(initial: Attachments, edits: seq<Edit>, e: Edit, v: string)
    ensures Holds(initial, edits + [e], |edits| + 1, v) <==>
            e == Publish(v) || (e != Unpublish(v) && Holds(initial, edits, |edits|, v))
  {
    var n, longer := |edits|, edits + [e];
    HoldsPrefix(initial, edits, e, n, v);
    assert longer[..n + 1] == longer[..n] + [e];
    assert forall j | 0 <= j <= n :: longer[j..n + 1] == longer[j..n] + [e];
    if e == Publish(v) {
      assert longer[n] == Publish(v) && Unpublish(v) !in longer[n..n + 1];
    } else if Holds(initial, edits, n, v) && e != Unpublish(v) && !(Attached(initial, v) && Unpublish(v) !in edits) {
      var j :| 0 <= j < n && longer[j] == Publish(v) && Unpublish(v) !in longer[j..n];
      assert Unpublish(v) !in longer[j..n + 1];
    }
  }

  lemma AttachedAfter(vs: Attachments, e: Edit, v: string)
    requires Tidy(vs)
    ensures Tidy(ApplyEdit(vs, e))
    ensures Attached(ApplyEdit(vs, e), v) <==> e == Publish(v) || (e != Unpublish(v) && Attached(vs, v))
  {
    if AttachmentName(e.volume) == AttachmentName(v) { AttachmentNameInjective(e.volume, v); }
    if e.Publish? {
      AttachKeepsOthers(vs, e.volume);
    } else {
      DetachKeepsOthers(vs, e.volume);
    }
  }

  /** The list holds a volume exactly when the history says so. */
  lemma {:induction false} AttachedIffHolds(initial: Attachments, edits: seq<Edit>, v: string)
    requires Tidy(initial)
    ensures Tidy(ApplyEdits(initial, edits))
    ensures Attached(ApplyEdits(initial, edits), v) <==> Holds(initial, edits, |edits|, v)
  {
    if edits != [] {
      var before, e := edits[..|edits| - 1], edits[|edits| - 1];
      assert edits == before + [e];
      AttachedIffHolds(initial, before, v);
      AttachedAfter(ApplyEdits(initial, before), e, v);
      HoldsAfter(initial, before, e, v);
    }
  }

  /** After any sequence of edits the list is duplicate-free, and is: the initial entries never
      removed, in their order, then the lasting publishes, in order of first publish since removal. */
  lemma {:induction false} OrderAfterEdits(initial: Attachments, edits: seq<Edit>)
    requires Tidy(initial)
    ensures Tidy(ApplyEdits(initial, edits))
    ensures ApplyEdits(initial, edits) == Kept(initial, edits) + Added(initial, edits, |edits|)
  {
    if edits == [] {
      KeptAll(initial);
    } else {
      var n := |edits| - 1;
      var e, before := edits[n], edits[..n];
      assert edits == before + [e];
      OrderAfterEdits(initial, before);
      KeptAfter(initial, before, e);
      AddedAfter(initial, before, e, n);
      match e {
        case Publish(v) => LastPublish(initial, before, v);
        case Unpublish(v) => LastUnpublish(initial, before, v);
      }
    }
  }

  lemma LastPublish(initial: Attachments, before: seq<Edit>, v: string)
    requires Tidy(initial)
    ensures var edits, n, vs := before + [Publish(v)], |before|, ApplyEdits(initial, before);
            Tidy(Attach(vs, v)) && Attach(vs, v) == vs + if Lasts(initial, edits, n) then [Fresh(v)] else []
  {
    var edits, n, vs := before + [Publish(v)], |before|, ApplyEdits(initial, before);
    AttachedIffHolds(initial, before, v);
    AttachKeepsOthers(vs, v);
    HoldsPrefix(initial, before, Publish(v), n, v);
    IndexFindsFirst(vs, AttachmentName(v));
    assert edits[n..] == [Publish(v)];
    assert Lasts(initial, edits, n) <==> !Attached(vs, v);
  }

  lemma LastUnpublish(initial: Attachments, before: seq<Edit>, v: string)
    requires Tidy(initial)
    requires ApplyEdits(initial, before) == Kept(initial, before) + Added(initial, before, |before|)
    ensures var vs, name := ApplyEdits(initial, before), AttachmentName(v);
            Tidy(Detach(vs, v))
            && Detach(vs, v) == Without(Kept(initial, before), name) + Without(Added(initial, before, |before|), name)
  {
    AttachedIffHolds(initial, before, v);
    DetachKeepsOthers(ApplyEdits(initial, before), v);
    DetachIsWithout(ApplyEdits(initial, before), v);
    WithoutConcat(Kept(initial, before), Added(initial, before, |before|), AttachmentName(v));
  }

  lemma {:induction false} KeptAll(initial: Attachments)
    ensures Kept(initial, []) == initial
  {
    if initial != [] {
      KeptAll(initial[1..]);
    }
  }

  /** Unpublishing undoes a publish, order included, exactly when the publish added something. */
  lemma UnpublishUndoesPublish(vs: Attachments, v: string)
    requires Tidy(vs)
    ensures Detach(Attach(vs, v), v) == vs <==> !Attached(vs, v)
  {
    var name := AttachmentName(v);
    IndexFindsFirst(vs, name);
    if Attached(vs, v) {
      assert |Detach(vs, v)| == |vs| - 1;
    } else {
      AttachKeepsOthers(vs, v);
      DetachIsWithout(vs + [Fresh(v)], v);
      WithoutConcat(vs, [Fresh(v)], name);
      WithoutAbsent(vs, name);
      assert Without([Fresh(v)], name) == [];
    }
  }
}
