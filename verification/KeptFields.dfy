/** The fields that COALESCE keeps, the album id and the raw event: exactly when
    they do not depend on the order in which changes arrive. */
module KeptFields {
  import opened Wrappers
  import opened MessageCache

  datatype Field = AlbumId | RawJson

  datatype Value = Number(n: int) | Json(text: string)

  function Carried(f: Field, x: Content): Option<Value> {
    match f
    case AlbumId => if x.grouped.Some? then Some(Number(x.grouped.value)) else None
    case RawJson => if x.raw.Some? then Some(Json(x.raw.value)) else None
  }

  function Held(f: Field, c: Cache, k: MessageKey): Option<Value> {
    if k in c.messages then Carried(f, c.messages[k].content) else None
  }

  lemma CarriedExactly(x: Content, y: Content)
    ensures Carried(AlbumId, x) == Carried(AlbumId, y) <==> x.grouped == y.grouped
    ensures Carried(RawJson, x) == Carried(RawJson, y) <==> x.raw == y.raw
  {
  }

  /** What a change says of the field, if it shows the message. */
  function Says(f: Field, ch: Change, k: MessageKey): Option<Value> {
    match EffectOn(ch, k)
    case Shows(x) => Carried(f, x)
    case _ => None
  }

  /** A backfill replaces the field outright; other changes only if they carry it. */
  predicate Decisive(f: Field, ch: Change, k: MessageKey) {
    ch.BackfillRow? || Says(f, ch, k).Some?
  }

  /** No change shows a later version. */
  ghost predicate Latest(changes: seq<Change>, k: MessageKey, ch: Change) {
    && ch in changes && EffectOn(ch, k).Shows?
    && forall other | other in changes && EffectOn(other, k).Shows? ::
         Newer(EffectOn(ch, k).content, EffectOn(other, k).content)
  }

  ghost predicate Undeleted(changes: seq<Change>, k: MessageKey) {
    !Has(changes, k, DeletesRow) && !Has(changes, k, DeletesCommon)
  }

  ghost predicate Settles(f: Field, changes: seq<Change>, k: MessageKey, ch: Change) {
    Latest(changes, k, ch) && Decisive(f, ch, k)
  }

  /** Nobody carries the field, or the latest version decides it, in one way. */
  ghost predicate Agreed(f: Field, changes: seq<Change>, k: MessageKey) {
    || (forall ch | ch in changes :: Says(f, ch, k).None?)
    || ((exists ch :: Settles(f, changes, k, ch))
        && forall a, b | Settles(f, changes, k, a) && Settles(f, changes, k, b) :: Says(f, a, k) == Says(f, b, k))
  }

  /** One more version of a row that is shown. */
  lemma KeptAfter(f: Field, c: Cache, ch: Change, k: MessageKey)
    requires EffectOn(ch, k).Shows? && k in c.messages && !c.messages[k].deleted
    ensures k in Apply(c, ch).messages
    ensures Held(f, Apply(c, ch), k)
      == if Newer(EffectOn(ch, k).content, c.messages[k].content) && Decisive(f, ch, k) then Says(f, ch, k)
         else Held(f, c, k)
  {
  }

  /** The cached row is the latest version as far as it is shown. */
  lemma RowIsLatest(changes: seq<Change>, k: MessageKey) returns (best: Change)
    requires Undeleted(changes, k) && HasContent(changes, k)
    ensures var c := ApplyAll(EMPTY_CACHE, changes);
      && k in c.messages && !c.messages[k].deleted
      && Latest(changes, k, best) && ViewOf(EffectOn(best, k).content) == ViewOf(c.messages[k].content)
  {
    CacheExplained(changes, k);
    var v := ViewOf(ApplyAll(EMPTY_CACHE, changes).messages[k].content);
    best :| best in changes && EffectOn(best, k).Shows? && ViewOf(EffectOn(best, k).content) == v
      && forall other | other in changes && EffectOn(other, k).Shows? ::
           Newer(EffectOn(best, k).content, EffectOn(other, k).content);
  }

  lemma PrefixUndeleted(before: seq<Change>, last: Change, k: MessageKey)
    requires Undeleted(before + [last], k)
    ensures Undeleted(before, k) && EffectOn(last, k) != DeletesRow && EffectOn(last, k) != DeletesCommon
    ensures HasContent(before + [last], k) <==> HasContent(before, k) || EffectOn(last, k).Shows?
  {
    HasMore(before, last, k, DeletesRow);
    HasMore(before, last, k, DeletesCommon);
  }

  lemma LatestBefore(before: seq<Change>, last: Change, k: MessageKey, ch: Change)
    requires Latest(before + [last], k, ch) && ch in before
    ensures Latest(before, k, ch)
  {
  }

  /** Of two latest versions of a prefix, if one survives another change, so does
      the other. */
  lemma LatestAfter(before: seq<Change>, last: Change, k: MessageKey, a: Change, b: Change)
    requires Latest(before, k, a) && Latest(before, k, b) && Latest(before + [last], k, a)
    ensures Latest(before + [last], k, b)
  {
    var all := before + [last];
    assert b in all;
    forall other | other in all && EffectOn(other, k).Shows?
      ensures Newer(EffectOn(b, k).content, EffectOn(other, k).content)
    {
      if other !in before {
        NewerIsTransitive(EffectOn(b, k).content, EffectOn(a, k).content, EffectOn(other, k).content);
      }
    }
  }

  /** A latest version that decides the field and arrives last has its way. */
  lemma LastDecides(f: Field, before: seq<Change>, last: Change, k: MessageKey)
    requires Undeleted(before + [last], k) && Settles(f, before + [last], k, last)
    ensures Held(f, ApplyAll(EMPTY_CACHE, before + [last]), k) == Says(f, last, k)
  {
    var all := before + [last];
    assert all[..|all| - 1] == before;
    PrefixUndeleted(before, last, k);
    CacheExplained(before, k);
    if HasContent(before, k) {
      var best := RowIsLatest(before, k);
      assert best in all;
      KeptAfter(f, ApplyAll(EMPTY_CACHE, before), last, k);
    }
  }

  /** A change that does not decide the field, or comes too late, leaves it. */
  lemma OthersLeaveIt(f: Field, before: seq<Change>, last: Change, k: MessageKey)
    requires Undeleted(before + [last], k) && HasContent(before, k) && !Settles(f, before + [last], k, last)
    ensures Held(f, ApplyAll(EMPTY_CACHE, before + [last]), k) == Held(f, ApplyAll(EMPTY_CACHE, before), k)
  {
    var all, c := before + [last], ApplyAll(EMPTY_CACHE, before);
    assert all[..|all| - 1] == before;
    PrefixUndeleted(before, last, k);
    RowAfter(c, last, k);
    var best := RowIsLatest(before, k);
    if EffectOn(last, k).Shows? {
      KeptAfter(f, c, last, k);
      var x := EffectOn(last, k).content;
      if Newer(x, c.messages[k].content) {
        NewestIsLatest(before, last, k, best);
      }
    }
  }

  lemma NewestIsLatest(before: seq<Change>, last: Change, k: MessageKey, best: Change)
    requires Latest(before, k, best) && EffectOn(last, k).Shows?
    requires Newer(EffectOn(last, k).content, EffectOn(best, k).content)
    ensures Latest(before + [last], k, last)
  {
    var all, x := before + [last], EffectOn(last, k).content;
    assert last in all;
    forall other | other in all && EffectOn(other, k).Shows? ensures Newer(x, EffectOn(other, k).content) {
      NewerIsTotal(x, x);
      if other in before {
        NewerIsTransitive(x, EffectOn(best, k).content, EffectOn(other, k).content);
      }
    }
  }

  /** The field held comes from a latest version that decides it, if there is one. */
  lemma {:induction false} HeldIsSettled(f: Field, changes: seq<Change>, k: MessageKey, some: Change) returns (source: Change)
    requires Undeleted(changes, k) && Settles(f, changes, k, some)
    ensures Settles(f, changes, k, source) && Held(f, ApplyAll(EMPTY_CACHE, changes), k) == Says(f, source, k)
  {
    var before, last := changes[..|changes| - 1], changes[|changes| - 1];
    assert changes == before + [last];
    PrefixUndeleted(before, last, k);
    if Settles(f, changes, k, last) {
      LastDecides(f, before, last, k);
      source := last;
    } else {
      assert some in before;
      LatestBefore(before, last, k, some);
      source := HeldIsSettled(f, before, k, some);
      LatestAfter(before, last, k, some, source);
      OthersLeaveIt(f, before, last, k);
    }
  }

  lemma {:induction false} NobodyCarries(f: Field, changes: seq<Change>, k: MessageKey)
    requires Undeleted(changes, k) && forall ch | ch in changes :: Says(f, ch, k).None?
    ensures Held(f, ApplyAll(EMPTY_CACHE, changes), k).None?
  {
    if changes != [] {
      var before, last := changes[..|changes| - 1], changes[|changes| - 1];
      assert changes == before + [last];
      PrefixUndeleted(before, last, k);
      NobodyCarries(f, before, k);
      CacheExplained(before, k);
      RowAfter(ApplyAll(EMPTY_CACHE, before), last, k);
      if EffectOn(last, k).Shows? && HasContent(before, k) {
        KeptAfter(f, ApplyAll(EMPTY_CACHE, before), last, k);
      }
    }
  }

  /** The same changes in another order. */
  ghost predicate Reordered(one: seq<Change>, two: seq<Change>) {
    multiset(one) == multiset(two)
  }

  lemma ReorderedMembers(one: seq<Change>, two: seq<Change>)
    requires Reordered(one, two)
    ensures forall ch :: ch in one <==> ch in two
  {
    forall ch ensures ch in one <==> ch in two {
      assert ch in one <==> ch in multiset(one);
      assert ch in two <==> ch in multiset(two);
    }
  }

  lemma SameMembersSameFacts(f: Field, one: seq<Change>, two: seq<Change>, k: MessageKey)
    requires forall ch :: ch in one <==> ch in two
    ensures Undeleted(one, k) <==> Undeleted(two, k)
    ensures HasContent(one, k) <==> HasContent(two, k)
    ensures forall ch :: Latest(one, k, ch) <==> Latest(two, k, ch)
    ensures forall ch :: Settles(f, one, k, ch) <==> Settles(f, two, k, ch)
  {
  }

  lemma AgreedIsOrderFree(f: Field, one: seq<Change>, two: seq<Change>, k: MessageKey)
    requires Agreed(f, one, k) && Undeleted(one, k) && forall ch :: ch in one <==> ch in two
    ensures Held(f, ApplyAll(EMPTY_CACHE, one), k) == Held(f, ApplyAll(EMPTY_CACHE, two), k)
  {
    SameMembersSameFacts(f, one, two, k);
    if forall ch | ch in one :: Says(f, ch, k).None? {
      NobodyCarries(f, one, k);
      NobodyCarries(f, two, k);
    } else {
      var some :| Settles(f, one, k, some);
      var a := HeldIsSettled(f, one, k, some);
      var b := HeldIsSettled(f, two, k, some);
      assert Settles(f, one, k, b);
    }
  }

  lemma TakeOut(changes: seq<Change>, x: Change) returns (rest: seq<Change>)
    requires x in changes
    ensures Reordered([x] + rest, changes) && Reordered(rest + [x], changes)
  {
    var i :| 0 <= i < |changes| && changes[i] == x;
    rest := changes[..i] + changes[i + 1..];
    assert changes == changes[..i] + [x] + changes[i + 1..];
  }

  /** Behind a latest version that nobody can decide against, the field stays. */
  lemma {:induction false} StaysBehind(f: Field, front: seq<Change>, rest: seq<Change>, k: MessageKey, t: Change)
    requires Undeleted(front + rest, k) && t in front && EffectOn(t, k).Shows? && Latest(front + rest, k, t)
    requires forall ch :: !Settles(f, front + rest, k, ch)
    ensures Held(f, ApplyAll(EMPTY_CACHE, front + rest), k) == Held(f, ApplyAll(EMPTY_CACHE, front), k)
  {
    if rest == [] {
      assert front + rest == front;
    } else {
      var before, last := rest[..|rest| - 1], rest[|rest| - 1];
      assert front + rest == front + before + [last];
      PrefixUndeleted(front + before, last, k);
      LatestBefore(front + before, last, k, t);
      forall ch ensures !Settles(f, front + before, k, ch) {
        if Settles(f, front + before, k, ch) {
          LatestAfter(front + before, last, k, t, ch);
          assert Settles(f, front + rest, k, ch);
        }
      }
      StaysBehind(f, front, before, k, t);
      OthersLeaveIt(f, front + before, last, k);
    }
  }

  /** Without a latest version that decides, whoever carries the field can come
      before the latest version, or after it. */
  lemma UndecidedDepends(f: Field, changes: seq<Change>, k: MessageKey, s: Change)
    returns (one: seq<Change>, two: seq<Change>)
    requires Undeleted(changes, k) && s in changes && Says(f, s, k).Some?
    requires forall ch :: !Settles(f, changes, k, ch)
    ensures Reordered(one, changes) && Reordered(two, changes)
    ensures Held(f, ApplyAll(EMPTY_CACHE, one), k) != Held(f, ApplyAll(EMPTY_CACHE, two), k)
  {
    assert EffectOn(s, k).Shows?;
    var t := RowIsLatest(changes, k);
    assert !Settles(f, changes, k, t);
    var rest := TakeOut(changes, t);
    two := [t] + rest;
    ReorderedMembers(two, changes);
    assert s in two && s != t;
    var rest' := TakeOut(rest, s);
    one := [s, t] + rest';
    assert multiset(one) == multiset(two) by {
      assert one == [s] + ([t] + rest') && multiset([s] + rest') == multiset(rest);
    }
    ReorderedMembers(one, changes);
    StayingBehind(f, changes, [s, t], rest', k, t);
    StayingBehind(f, changes, [t], rest, k, t);
    TwoInARow(f, s, t, k);
  }

  lemma StayingBehind(f: Field, changes: seq<Change>, front: seq<Change>, rest: seq<Change>, k: MessageKey, t: Change)
    requires forall ch :: ch in front + rest <==> ch in changes
    requires Undeleted(changes, k) && t in front && Latest(changes, k, t) && forall ch :: !Settles(f, changes, k, ch)
    ensures Held(f, ApplyAll(EMPTY_CACHE, front + rest), k) == Held(f, ApplyAll(EMPTY_CACHE, front), k)
  {
    SameMembersSameFacts(f, front + rest, changes, k);
    StaysBehind(f, front, rest, k, t);
  }

  lemma TwoInARow(f: Field, s: Change, t: Change, k: MessageKey)
    requires Says(f, s, k).Some? && EffectOn(t, k).Shows? && !Decisive(f, t, k)
    ensures Held(f, ApplyAll(EMPTY_CACHE, [s, t]), k) == Says(f, s, k)
    ensures Held(f, ApplyAll(EMPTY_CACHE, [t]), k).None?
  {
    TwoInOrder(s, t);
    assert [t][..0] == [];
    RowAfter(EMPTY_CACHE, s, k);
    RowAfter(EMPTY_CACHE, t, k);
    KeptAfter(f, Apply(EMPTY_CACHE, s), t, k);
  }

  lemma DisagreeingDepends(f: Field, changes: seq<Change>, k: MessageKey, a: Change, b: Change)
    returns (one: seq<Change>, two: seq<Change>)
    requires Undeleted(changes, k) && Settles(f, changes, k, a) && Settles(f, changes, k, b)
    requires Says(f, a, k) != Says(f, b, k)
    ensures Reordered(one, changes) && Reordered(two, changes)
    ensures Held(f, ApplyAll(EMPTY_CACHE, one), k) != Held(f, ApplyAll(EMPTY_CACHE, two), k)
  {
    var rest := TakeOut(changes, a);
    var rest' := TakeOut(changes, b);
    one, two := rest + [a], rest' + [b];
    ReorderedMembers(one, changes);
    ReorderedMembers(two, changes);
    SameMembersSameFacts(f, one, changes, k);
    SameMembersSameFacts(f, two, changes, k);
    LastDecides(f, rest, a, k);
    LastDecides(f, rest', b, k);
  }

  /** KEPT FIELDS EXACTLY. The field of a message that nobody deleted is the same
      for every order of its changes if and only if no change carries the field,
      or some latest version decides it and all that do agree. With versions that
      differ: the greatest one carries the field or is a backfill. */
  lemma OrderFreeExactly(f: Field, changes: seq<Change>, k: MessageKey)
    requires Undeleted(changes, k)
    ensures Agreed(f, changes, k)
      <==> forall other | Reordered(other, changes) ::
             Held(f, ApplyAll(EMPTY_CACHE, other), k) == Held(f, ApplyAll(EMPTY_CACHE, changes), k)
  {
    if Agreed(f, changes, k) {
      forall other | Reordered(other, changes)
        ensures Held(f, ApplyAll(EMPTY_CACHE, other), k) == Held(f, ApplyAll(EMPTY_CACHE, changes), k)
      {
        ReorderedMembers(other, changes);
        AgreedIsOrderFree(f, changes, other, k);
      }
    } else {
      var s :| s in changes && Says(f, s, k).Some?;
      var one, two;
      if exists ch :: Settles(f, changes, k, ch) {
        var a, b :| Settles(f, changes, k, a) && Settles(f, changes, k, b) && Says(f, a, k) != Says(f, b, k);
        one, two := DisagreeingDepends(f, changes, k, a, b);
      } else {
        one, two := UndecidedDepends(f, changes, k, s);
      }
      assert Reordered(one, changes) && Reordered(two, changes);
    }
  }

  lemma StillLatest(before: seq<Change>, last: Change, k: MessageKey, best: Change)
    requires Latest(before, k, best)
    requires EffectOn(last, k).Shows? ==> Newer(EffectOn(best, k).content, EffectOn(last, k).content)
    ensures Latest(before + [last], k, best)
  {
    assert best in before + [last];
  }

  /** Type and id of the media are those of a latest version as long as no
      backfill shows the message. */
  lemma {:induction false} MediaIsLatest(changes: seq<Change>, k: MessageKey) returns (best: Change)
    requires Undeleted(changes, k) && HasContent(changes, k)
    requires forall ch | ch in changes && EffectOn(ch, k).Shows? :: !ch.BackfillRow?
    ensures var c := ApplyAll(EMPTY_CACHE, changes);
      && k in c.messages && Latest(changes, k, best)
      && c.messages[k].content.mediaType == EffectOn(best, k).content.mediaType
      && c.messages[k].content.mediaId == EffectOn(best, k).content.mediaId
  {
    var before, last := changes[..|changes| - 1], changes[|changes| - 1];
    var c := ApplyAll(EMPTY_CACHE, before);
    assert changes == before + [last];
    PrefixUndeleted(before, last, k);
    CacheExplained(before, k);
    RowAfter(c, last, k);
    best := last;
    if HasContent(before, k) {
      var shown := RowIsLatest(before, k);
      best := MediaIsLatest(before, k);
      if EffectOn(last, k).Shows? && Newer(EffectOn(last, k).content, c.messages[k].content) {
        NewestIsLatest(before, last, k, shown);
        best := last;
      } else {
        if EffectOn(last, k).Shows? {
          NewerIsTotal(EffectOn(last, k).content, c.messages[k].content);
          NewerIsTransitive(EffectOn(best, k).content, EffectOn(shown, k).content, EffectOn(last, k).content);
        }
        StillLatest(before, last, k, best);
      }
    } else {
      NewerIsTotal(EffectOn(last, k).content, EffectOn(last, k).content);
    }
  }

  /** With a backfill the type can depend on the order, and the path of a cached
      file without one. Module MediaFields says exactly when. */
  lemma MediaDependsOnOrder()
    ensures
      var k := MessageKey(1, 1);
      var photo := NO_CONTENT.(hasMedia := true, mediaType := Some("photo"), mediaPath := Some("p"), editDate := 1);
      var bare := NO_CONTENT.(hasMedia := true, editDate := 2);
      var live, backfill := SyncRow(k, bare), BackfillRow(k, bare, NoDisposition);
      var first := SyncRow(k, photo);
      && ApplyAll(EMPTY_CACHE, [first, backfill]).messages[k].content.mediaType == Some("photo")
      && ApplyAll(EMPTY_CACHE, [backfill, first]).messages[k].content.mediaType == None
      && ApplyAll(EMPTY_CACHE, [first, live]).messages[k].content.mediaPath == Some("p")
      && ApplyAll(EMPTY_CACHE, [live, first]).messages[k].content.mediaPath == None
  {
    var k := MessageKey(1, 1);
    var photo := NO_CONTENT.(hasMedia := true, mediaType := Some("photo"), mediaPath := Some("p"), editDate := 1);
    var bare := NO_CONTENT.(hasMedia := true, editDate := 2);
    var live, backfill := SyncRow(k, bare), BackfillRow(k, bare, NoDisposition);
    TwoInOrder(SyncRow(k, photo), backfill);
    TwoInOrder(backfill, SyncRow(k, photo));
    TwoInOrder(SyncRow(k, photo), live);
    TwoInOrder(live, SyncRow(k, photo));
  }

  lemma TwoInOrder(s: Change, t: Change)
    ensures ApplyAll(EMPTY_CACHE, [s, t]) == Apply(Apply(EMPTY_CACHE, s), t)
  {
    assert [s, t][..1] == [s] && [s][..0] == [];
    assert ApplyAll(EMPTY_CACHE, [s]) == Apply(EMPTY_CACHE, s);
  }
}
