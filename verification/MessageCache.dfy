/** The cached message table: every way a row is written, and why the order of
    arrival does not matter for what is shown. */
module MessageCache {
  import opened Wrappers
  import opened Lexical

  /** Marked peer ids: users positive, basic groups negative, channels below
      -10^12. */
  const CHANNEL_OFFSET: int := 1_000_000_000_000

  function ChatId(raw: int): int { -raw }

  function ChannelId(raw: int): int { -CHANNEL_OFFSET - raw }

  function Raw(marked: int): int {
    if marked < -CHANNEL_OFFSET then -marked - CHANNEL_OFFSET
    else if marked < 0 then -marked
    else marked
  }

  datatype PeerKind = ChannelPeer | ChatPeer | UserPeer | NoPeer

  function Kind(marked: int): PeerKind {
    if marked < -CHANNEL_OFFSET then ChannelPeer
    else if marked < 0 then ChatPeer
    else if marked > 0 then UserPeer
    else NoPeer
  }

  /** chat_id > -1000000000000, the guard of the trigger and of the delete. */
  predicate SharesMessageIds(chat: int) {
    chat > -CHANNEL_OFFSET
  }

  /** The marking is a partition with Raw as inverse. */
  lemma MarkedIdsRoundTrip(raw: int)
    requires raw > 0
    ensures Raw(ChannelId(raw)) == raw && Kind(ChannelId(raw)) == ChannelPeer
    ensures raw <= CHANNEL_OFFSET ==> Raw(ChatId(raw)) == raw && Kind(ChatId(raw)) == ChatPeer
    ensures Raw(raw) == raw && Kind(raw) == UserPeer
    ensures Raw(0) == 0 && Kind(0) == NoPeer
  {
  }

  /** A common delete reaches exactly the ids that are not channels, except for
      the one marked id on the boundary, which Kind calls a basic group. */
  lemma CommonDeleteReach(marked: int)
    ensures SharesMessageIds(marked) <==> Kind(marked) != ChannelPeer && marked != -CHANNEL_OFFSET
    ensures Kind(-CHANNEL_OFFSET) == ChatPeer && !SharesMessageIds(-CHANNEL_OFFSET)
  {
  }

  datatype Content = Content(
    sender: Option<int>, date: string, text: Option<string>, outgoing: bool, reply: Option<int>,
    hasMedia: bool, mediaType: Option<string>, mediaPath: Option<string>, mediaId: Option<string>,
    grouped: Option<int>, raw: Option<string>, editDate: int)

  datatype Row = Row(content: Content, deleted: bool)

  datatype MessageKey = MessageKey(chat: int, id: int)

  datatype Cache = Cache(messages: map<MessageKey, Row>, common: set<int>, readMarks: map<int, int>)

  const EMPTY_CACHE := Cache(map[], {}, map[])

  const NO_CONTENT := Content(None, "", None, false, None, false, None, None, None, None, None, 0)

  function Coalesce<T>(a: Option<T>, b: Option<T>): Option<T> {
    if a.Some? then a else b
  }

  function Max(a: int, b: int): int {
    if a < b then b else a
  }

  /** The guard repeated in every SET clause: later edit, or same edit and no
      earlier date. */
  predicate Newer(excluded: Content, stored: Content) {
    excluded.editDate > stored.editDate || (excluded.editDate == stored.editDate && AtMost(stored.date, excluded.date))
  }

  /** ON CONFLICT of UpsertLiveMessage; all clauses read the old row. */
  function MergeLive(row: Row, excluded: Content): Row {
    var cur := row.content;
    if row.deleted then row
    else if Newer(excluded, cur) then
      var path :=
        if !excluded.hasMedia then None
        else if excluded.mediaId.Some? && Coalesce(excluded.mediaId, Some("")) != Coalesce(cur.mediaId, Some(""))
        then excluded.mediaPath
        else Coalesce(excluded.mediaPath, cur.mediaPath);
      Row(excluded.(mediaPath := path, grouped := Coalesce(excluded.grouped, cur.grouped),
                    raw := Coalesce(excluded.raw, cur.raw), editDate := Max(cur.editDate, excluded.editDate)), false)
    else Row(cur.(editDate := Max(cur.editDate, excluded.editDate)), false)
  }

  datatype Disposition = NoDisposition | DownloadedNow | SkippedNow | FailedNow | OtherDisposition

  /** ON CONFLICT of the backfill insert. */
  function MergeBackfill(row: Row, excluded: Content, d: Disposition): Row {
    var cur := row.content;
    if row.deleted || !Newer(excluded, cur) then row
    else if d.DownloadedNow? || d.SkippedNow? then Row(excluded, false)
    else if d.FailedNow? && excluded.mediaId.Some? && cur.mediaId == excluded.mediaId then
      Row(excluded.(mediaType := cur.mediaType, mediaPath := cur.mediaPath, mediaId := cur.mediaId), false)
    else if d.NoDisposition? then
      Row(excluded.(
        mediaType := if excluded.hasMedia && excluded.mediaType.None? then cur.mediaType else excluded.mediaType,
        mediaPath := if excluded.hasMedia && excluded.mediaPath.None? then cur.mediaPath else excluded.mediaPath), false)
    else Row(excluded.(mediaId := None), false)
  }

  /** An INSERT, after which the tombstone trigger may fire. */
  function InsertRow(c: Cache, k: MessageKey, content: Content): Cache {
    c.(messages := c.messages[k := Row(content, SharesMessageIds(k.chat) && k.id in c.common)])
  }

  function UpsertLive(c: Cache, k: MessageKey, content: Content): Cache {
    if k !in c.messages then InsertRow(c, k, content)
    else c.(messages := c.messages[k := MergeLive(c.messages[k], content)])
  }

  function UpsertBackfill(c: Cache, k: MessageKey, content: Content, d: Disposition): Cache {
    if k !in c.messages then InsertRow(c, k, content)
    else c.(messages := c.messages[k := MergeBackfill(c.messages[k], content, d)])
  }

  function Tombstone(c: Cache, k: MessageKey): Cache {
    if k !in c.messages then c.(messages := c.messages[k := Row(NO_CONTENT, true)])
    else c.(messages := c.messages[k := c.messages[k].(deleted := true)])
  }

  function CommonDelete(c: Cache, id: int): Cache {
    Cache(map k | k in c.messages ::
            if k.id == id && SharesMessageIds(k.chat) then c.messages[k].(deleted := true) else c.messages[k],
          c.common + {id}, c.readMarks)
  }

  function Expire(c: Cache, k: MessageKey): Cache {
    if k !in c.messages then c.(messages := c.messages[k := Row(NO_CONTENT, true)])
    else
      var cur := c.messages[k].content;
      c.(messages := c.messages[k := Row(
        NO_CONTENT.(date := cur.date, outgoing := cur.outgoing, grouped := cur.grouped, editDate := cur.editDate), true)])
  }

  datatype UpdateKind = ReadInbox | ExpiringMessage | OtherUpdate

  datatype ListenEvent = ListenEvent(
    kind: UpdateKind, chat: int, message: int, deleted: bool, readMax: int, content: Content)

  function KeyOf(e: ListenEvent): MessageKey {
    MessageKey(e.chat, e.message)
  }

  /** persistUpdateEvent, without the media file it may unlink. */
  function Persist(c: Cache, e: ListenEvent): Cache {
    if e.kind.ReadInbox? then
      c.(readMarks := c.readMarks[e.chat := if e.chat in c.readMarks then Max(c.readMarks[e.chat], e.readMax) else e.readMax])
    else if e.kind.ExpiringMessage? then Expire(c, KeyOf(e))
    else if e.deleted then
      if e.chat == 0 then CommonDelete(c, e.message) else Tombstone(c, KeyOf(e))
    else if e.chat == 0 || e.message == 0 then c
    else UpsertLive(c, KeyOf(e), e.content)
  }

  /** The writers of message content and of deletions: live events, sync rows and
      backfill rows. Writers that only attach a downloaded or uploaded file are
      not among them. */
  datatype Change =
    | Live(event: ListenEvent)
    | SyncRow(key: MessageKey, content: Content)
    | BackfillRow(key: MessageKey, content: Content, disposition: Disposition)

  function Apply(c: Cache, ch: Change): Cache {
    match ch
    case Live(e) => Persist(c, e)
    case SyncRow(k, content) => UpsertLive(c, k, content)
    case BackfillRow(k, content, d) => UpsertBackfill(c, k, content, d)
  }

  function ApplyAll(c: Cache, changes: seq<Change>): Cache {
    if changes == [] then c else Apply(ApplyAll(c, changes[..|changes| - 1]), changes[|changes| - 1])
  }

  /** What a change says about one message. */
  datatype Effect = Nothing | Shows(content: Content) | DeletesRow | DeletesCommon

  function EffectOn(ch: Change, k: MessageKey): Effect {
    match ch
    case SyncRow(key, content) => if key == k then Shows(content) else Nothing
    case BackfillRow(key, content, _) => if key == k then Shows(content) else Nothing
    case Live(e) =>
      if e.kind.ReadInbox? then Nothing
      else if e.kind.ExpiringMessage? then if KeyOf(e) == k then DeletesRow else Nothing
      else if e.deleted then
        if e.chat == 0 then if e.message == k.id && SharesMessageIds(k.chat) then DeletesCommon else Nothing
        else if KeyOf(e) == k then DeletesRow else Nothing
      else if e.chat == 0 || e.message == 0 then Nothing
      else if KeyOf(e) == k then Shows(e.content)
      else Nothing
  }

  /** What a reader of the cache sees of one message. */
  datatype View =
    | Absent
    | Deleted
    | Shown(sender: Option<int>, date: string, text: Option<string>, outgoing: bool, reply: Option<int>,
            hasMedia: bool, editDate: int)

  function ViewOf(x: Content): View {
    Shown(x.sender, x.date, x.text, x.outgoing, x.reply, x.hasMedia, x.editDate)
  }

  function Visible(c: Cache, k: MessageKey): View {
    if k !in c.messages then Absent
    else if c.messages[k].deleted then Deleted
    else ViewOf(c.messages[k].content)
  }

  /** No two contents of one version disagree on what is shown. */
  ghost predicate Consistent(changes: seq<Change>, k: MessageKey) {
    forall a, b | a in changes && b in changes && EffectOn(a, k).Shows? && EffectOn(b, k).Shows?
      && EffectOn(a, k).content.editDate == EffectOn(b, k).content.editDate
      && EffectOn(a, k).content.date == EffectOn(b, k).content.date ::
      ViewOf(EffectOn(a, k).content) == ViewOf(EffectOn(b, k).content)
  }

  /** x is shown by some change and no change shows a later version. */
  ghost predicate Greatest(changes: seq<Change>, k: MessageKey, v: View) {
    exists ch :: ch in changes && EffectOn(ch, k).Shows? && ViewOf(EffectOn(ch, k).content) == v
      && forall other | other in changes && EffectOn(other, k).Shows? ::
           Newer(EffectOn(ch, k).content, EffectOn(other, k).content)
  }

  ghost predicate Has(changes: seq<Change>, k: MessageKey, e: Effect) {
    exists ch :: ch in changes && EffectOn(ch, k) == e
  }

  ghost predicate HasContent(changes: seq<Change>, k: MessageKey) {
    exists ch :: ch in changes && EffectOn(ch, k).Shows?
  }

  /** The order-free account of one message: deleted as soon as any applicable
      delete is present, else the greatest version. */
  ghost predicate Explains(changes: seq<Change>, k: MessageKey, c: Cache) {
    && (k in c.messages <==> HasContent(changes, k) || Has(changes, k, DeletesRow))
    && (k in c.messages ==>
         (c.messages[k].deleted <==> Has(changes, k, DeletesRow) || Has(changes, k, DeletesCommon)))
    && (k in c.messages && !c.messages[k].deleted ==> Greatest(changes, k, ViewOf(c.messages[k].content)))
    && (SharesMessageIds(k.chat) ==> (k.id in c.common <==> Has(changes, k, DeletesCommon)))
  }

  lemma NewerIsTotal(a: Content, b: Content)
    ensures Newer(a, b) || Newer(b, a)
    ensures Newer(a, a)
  {
    Total(a.date, b.date);
  }

  lemma NewerIsTransitive(a: Content, b: Content, x: Content)
    requires Newer(a, b) && Newer(b, x)
    ensures Newer(a, x)
  {
    if a.editDate == b.editDate == x.editDate {
      Transitive(x.date, b.date, a.date);
    }
  }

  lemma SameVersion(a: Content, b: Content)
    requires Newer(a, b) && Newer(b, a)
    ensures a.editDate == b.editDate && a.date == b.date
  {
    Antisymmetric(a.date, b.date);
  }

  /** Nothing is left of what the message said. */
  predicate Scrubbed(x: Content) {
    && x.text.None? && x.raw.None? && x.sender.None? && x.reply.None?
    && !x.hasMedia && x.mediaType.None? && x.mediaPath.None? && x.mediaId.None?
  }

  /** What remains of a message that expired. */
  predicate SameOutline(a: Content, b: Content) {
    a.date == b.date && a.outgoing == b.outgoing && a.grouped == b.grouped && a.editDate == b.editDate
  }

  /** The row of k depends on a change only through its effect on k. */
  lemma RowAfter(c: Cache, ch: Change, k: MessageKey)
    ensures var c' := Apply(c, ch);
      match EffectOn(ch, k)
      case Nothing => (k in c'.messages <==> k in c.messages) && (k in c.messages ==> c'.messages[k] == c.messages[k])
      case DeletesRow => k in c'.messages && c'.messages[k].deleted
      case DeletesCommon => (k in c'.messages <==> k in c.messages) && (k in c.messages ==> c'.messages[k].deleted)
      case Shows(x) =>
        && k in c'.messages
        && (k !in c.messages ==> c'.messages[k] == Row(x, SharesMessageIds(k.chat) && k.id in c.common))
        && (k in c.messages ==> c'.messages[k].deleted == c.messages[k].deleted)
        && (k in c.messages && !c.messages[k].deleted ==>
              ViewOf(c'.messages[k].content) == ViewOf(if Newer(x, c.messages[k].content) then x else c.messages[k].content))
  {
  }

  /** Once a message has expired, no history brings anything of it back. */
  lemma {:induction false} ExpiredForever(c: Cache, changes: seq<Change>, k: MessageKey, i: nat)
    requires i < |changes| && EffectOn(changes[i], k).DeletesRow? && changes[i].event.kind.ExpiringMessage?
    ensures var c' := ApplyAll(c, changes); k in c'.messages && c'.messages[k].deleted && Scrubbed(c'.messages[k].content)
  {
    var last := |changes| - 1;
    RowAfter(ApplyAll(c, changes[..last]), changes[last], k);
    DeletedRowAfter(ApplyAll(c, changes[..last]), changes[last], k);
    if i < last {
      ExpiredForever(c, changes[..last], k, i);
    }
  }

  /** Deleting keeps what was cached, whatever else happens, until the message
      expires. */
  lemma {:induction false} DeletedIsKept(c: Cache, changes: seq<Change>, k: MessageKey)
    requires k in c.messages && c.messages[k].deleted
    requires forall ch | ch in changes :: EffectOn(ch, k).DeletesRow? ==> !ch.event.kind.ExpiringMessage?
    ensures k in ApplyAll(c, changes).messages && ApplyAll(c, changes).messages[k] == c.messages[k]
  {
    if changes != [] {
      var last := |changes| - 1;
      DeletedIsKept(c, changes[..last], k);
      RowAfter(ApplyAll(c, changes[..last]), changes[last], k);
      DeletedRowAfter(ApplyAll(c, changes[..last]), changes[last], k);
    }
  }

  /** What becomes of a row that is deleted, or already was. */
  lemma DeletedRowAfter(c: Cache, ch: Change, k: MessageKey)
    ensures var c' := Apply(c, ch);
      match EffectOn(ch, k)
      case Nothing => true
      case DeletesRow =>
        && k in c'.messages && c'.messages[k].deleted
        && (ch.event.kind.ExpiringMessage? ==> Scrubbed(c'.messages[k].content))
        && (k in c.messages && !ch.event.kind.ExpiringMessage? ==> c'.messages[k].content == c.messages[k].content)
        && (k in c.messages ==> SameOutline(c'.messages[k].content, c.messages[k].content))
        && (k !in c.messages ==> c'.messages[k] == Row(NO_CONTENT, true) && Scrubbed(NO_CONTENT))
      case DeletesCommon => k in c.messages ==> k in c'.messages && c'.messages[k] == Row(c.messages[k].content, true)
      case Shows(_) => k in c.messages && c.messages[k].deleted ==> k in c'.messages && c'.messages[k] == c.messages[k]
    ensures SameOutline(NO_CONTENT, NO_CONTENT.(date := "", outgoing := false, grouped := None, editDate := 0))
  {
  }

  lemma CommonAfter(c: Cache, ch: Change, k: MessageKey)
    requires SharesMessageIds(k.chat)
    ensures k.id in Apply(c, ch).common <==> k.id in c.common || EffectOn(ch, k) == DeletesCommon
  {
  }

  lemma HasMore(changes: seq<Change>, ch: Change, k: MessageKey, e: Effect)
    ensures Has(changes + [ch], k, e) <==> Has(changes, k, e) || EffectOn(ch, k) == e
    ensures HasContent(changes + [ch], k) <==> HasContent(changes, k) || EffectOn(ch, k).Shows?
  {
    var all := changes + [ch];
    assert ch in all && forall x | x in changes :: x in all;
  }

  /** Adding a change keeps, or replaces by the newcomer, the greatest version. */
  lemma GreatestAfterShow(changes: seq<Change>, ch: Change, k: MessageKey, cur: Content)
    requires EffectOn(ch, k).Shows?
    requires Greatest(changes, k, ViewOf(cur))
    ensures Greatest(changes + [ch], k, ViewOf(if Newer(EffectOn(ch, k).content, cur) then EffectOn(ch, k).content else cur))
  {
    var all, x := changes + [ch], EffectOn(ch, k).content;
    var best :| best in changes && EffectOn(best, k).Shows? && ViewOf(EffectOn(best, k).content) == ViewOf(cur)
      && forall other | other in changes && EffectOn(other, k).Shows? ::
           Newer(EffectOn(best, k).content, EffectOn(other, k).content);
    var b := EffectOn(best, k).content;
    assert Newer(x, cur) == Newer(x, b) && Newer(b, x) == Newer(cur, x);
    NewerIsTotal(x, b);
    if Newer(x, cur) {
      assert ch in all;
      forall other | other in all && EffectOn(other, k).Shows? ensures Newer(x, EffectOn(other, k).content) {
        if other in changes {
          NewerIsTransitive(x, b, EffectOn(other, k).content);
        } else {
          NewerIsTotal(x, x);
        }
      }
    } else {
      assert best in all;
    }
  }

  lemma GreatestOfOne(changes: seq<Change>, ch: Change, k: MessageKey)
    requires EffectOn(ch, k).Shows? && !HasContent(changes, k)
    ensures Greatest(changes + [ch], k, ViewOf(EffectOn(ch, k).content))
  {
    var all := changes + [ch];
    assert ch in all;
    forall other | other in all && EffectOn(other, k).Shows?
      ensures Newer(EffectOn(ch, k).content, EffectOn(other, k).content)
    {
      assert other == ch || other in changes;
      NewerIsTotal(EffectOn(ch, k).content, EffectOn(ch, k).content);
    }
  }

  lemma GreatestUnaffected(changes: seq<Change>, ch: Change, k: MessageKey, v: View)
    requires !EffectOn(ch, k).Shows? && Greatest(changes, k, v)
    ensures Greatest(changes + [ch], k, v)
  {
    var all := changes + [ch];
    var best :| best in changes && EffectOn(best, k).Shows? && ViewOf(EffectOn(best, k).content) == v
      && forall other | other in changes && EffectOn(other, k).Shows? ::
           Newer(EffectOn(best, k).content, EffectOn(other, k).content);
    assert best in all;
    assert forall other | other in all && EffectOn(other, k).Shows? :: other in changes;
  }

  lemma ExplainsNext(changes: seq<Change>, ch: Change, k: MessageKey, c: Cache)
    requires Explains(changes, k, c)
    ensures Explains(changes + [ch], k, Apply(c, ch))
  {
    var c' := Apply(c, ch);
    RowAfter(c, ch, k);
    HasMore(changes, ch, k, DeletesRow);
    HasMore(changes, ch, k, DeletesCommon);
    if SharesMessageIds(k.chat) {
      CommonAfter(c, ch, k);
    }
    if k in c'.messages && !c'.messages[k].deleted {
      if EffectOn(ch, k).Shows? {
        if k in c.messages {
          GreatestAfterShow(changes, ch, k, c.messages[k].content);
        } else {
          GreatestOfOne(changes, ch, k);
        }
      } else {
        GreatestUnaffected(changes, ch, k, ViewOf(c.messages[k].content));
      }
    }
    NoCommonForChannels(changes, k);
  }

  lemma NoCommonForChannels(changes: seq<Change>, k: MessageKey)
    ensures Has(changes, k, DeletesCommon) ==> SharesMessageIds(k.chat)
  {
  }

  lemma {:induction false} CacheExplained(changes: seq<Change>, k: MessageKey)
    ensures Explains(changes, k, ApplyAll(EMPTY_CACHE, changes))
  {
    if changes != [] {
      var rest, last := changes[..|changes| - 1], changes[|changes| - 1];
      CacheExplained(rest, k);
      ExplainsNext(rest, last, k, ApplyAll(EMPTY_CACHE, rest));
      assert rest + [last] == changes;
    }
  }

  lemma GreatestIsUnique(changes: seq<Change>, k: MessageKey, v: View, w: View)
    requires Consistent(changes, k) && Greatest(changes, k, v) && Greatest(changes, k, w)
    ensures v == w
  {
    var a :| a in changes && EffectOn(a, k).Shows? && ViewOf(EffectOn(a, k).content) == v
      && forall other | other in changes && EffectOn(other, k).Shows? ::
           Newer(EffectOn(a, k).content, EffectOn(other, k).content);
    var b :| b in changes && EffectOn(b, k).Shows? && ViewOf(EffectOn(b, k).content) == w
      && forall other | other in changes && EffectOn(other, k).Shows? ::
           Newer(EffectOn(b, k).content, EffectOn(other, k).content);
    SameVersion(EffectOn(a, k).content, EffectOn(b, k).content);
  }

  lemma SameChangesSameFacts(one: seq<Change>, two: seq<Change>, k: MessageKey)
    requires forall ch :: ch in one <==> ch in two
    ensures HasContent(one, k) <==> HasContent(two, k)
    ensures forall e :: Has(one, k, e) <==> Has(two, k, e)
    ensures forall v :: Greatest(one, k, v) ==> Greatest(two, k, v)
  {
    forall v | Greatest(one, k, v) ensures Greatest(two, k, v) {
      var a :| a in one && EffectOn(a, k).Shows? && ViewOf(EffectOn(a, k).content) == v
        && forall other | other in one && EffectOn(other, k).Shows? ::
             Newer(EffectOn(a, k).content, EffectOn(other, k).content);
      assert a in two;
    }
  }

  /** CONVERGENCE. Two histories made of the same changes, in any order and with
      any repetitions, show the same message, provided no version is ambiguous. */
  lemma Converges(one: seq<Change>, two: seq<Change>, k: MessageKey)
    requires forall ch :: ch in one <==> ch in two
    requires Consistent(one, k)
    ensures Visible(ApplyAll(EMPTY_CACHE, one), k) == Visible(ApplyAll(EMPTY_CACHE, two), k)
  {
    CacheExplained(one, k);
    CacheExplained(two, k);
    SameChangesSameFacts(one, two, k);
    SameChangesSameFacts(two, one, k);
    var a, b := ApplyAll(EMPTY_CACHE, one), ApplyAll(EMPTY_CACHE, two);
    if k in a.messages && !a.messages[k].deleted {
      GreatestIsUnique(one, k, ViewOf(a.messages[k].content), ViewOf(b.messages[k].content));
    }
  }

  /** Any permutation is such a pair of histories. */
  lemma PermutationsConverge(one: seq<Change>, two: seq<Change>, k: MessageKey)
    requires multiset(one) == multiset(two) && Consistent(one, k)
    ensures Visible(ApplyAll(EMPTY_CACHE, one), k) == Visible(ApplyAll(EMPTY_CACHE, two), k)
  {
    forall ch ensures ch in one <==> ch in two {
      assert ch in one <==> ch in multiset(one);
      assert ch in two <==> ch in multiset(two);
    }
    Converges(one, two, k);
  }

  /** What is shown: Deleted as soon as any applicable delete of an existing row
      is among the changes, else the greatest version. */
  lemma VisibleExactly(changes: seq<Change>, k: MessageKey)
    ensures var v := Visible(ApplyAll(EMPTY_CACHE, changes), k);
      && (v.Absent? <==> !HasContent(changes, k) && !Has(changes, k, DeletesRow))
      && (v.Deleted? <==> Has(changes, k, DeletesRow) || (HasContent(changes, k) && Has(changes, k, DeletesCommon)))
      && (v.Shown? ==> Greatest(changes, k, v))
  {
    CacheExplained(changes, k);
  }

  /** No change ever revives a tombstone. */
  lemma TombstonesStay(c: Cache, ch: Change, k: MessageKey)
    requires k in c.messages && c.messages[k].deleted
    ensures k in Apply(c, ch).messages && Apply(c, ch).messages[k].deleted
  {
    RowAfter(c, ch, k);
  }

  /** A newer version keeps the path of a cached file only while the media is
      the same as far as known, and never without media. */
  lemma MediaPathFollowsMedia(row: Row, x: Content)
    requires !row.deleted && Newer(x, row.content)
    ensures var path := MergeLive(row, x).content.mediaPath;
      var same := x.mediaId.None? || x.mediaId == row.content.mediaId || (x.mediaId == Some("") && row.content.mediaId.None?);
      && (!x.hasMedia ==> path.None?)
      && (x.hasMedia && x.mediaPath.Some? ==> path == x.mediaPath)
      && (x.hasMedia && x.mediaPath.None? && path.Some? ==> same && path == row.content.mediaPath)
      && (x.hasMedia && x.mediaId == row.content.mediaId && row.content.mediaPath.Some? ==> path.Some?)
  {
  }

  predicate ReadsUpTo(ch: Change, chat: int, mark: int) {
    ch.Live? && ch.event.kind.ReadInbox? && ch.event.chat == chat && ch.event.readMax == mark
  }

  /** The read mark of a chat is the greatest one ever reported, so it depends on
      no order either. */
  lemma {:induction false} ReadMarkIsGreatest(changes: seq<Change>, chat: int)
    ensures var c := ApplyAll(EMPTY_CACHE, changes);
      && (chat in c.readMarks ==> exists ch :: ch in changes && ReadsUpTo(ch, chat, c.readMarks[chat]))
      && (forall ch, mark | ch in changes && ReadsUpTo(ch, chat, mark) :: chat in c.readMarks && mark <= c.readMarks[chat])
  {
    if changes != [] {
      var before, last := changes[..|changes| - 1], changes[|changes| - 1];
      ReadMarkIsGreatest(before, chat);
      var c0, c := ApplyAll(EMPTY_CACHE, before), ApplyAll(EMPTY_CACHE, changes);
      assert last in changes && forall ch | ch in before :: ch in changes;
      assert forall ch | ch in changes :: ch in before || ch == last;
      if chat in c.readMarks {
        if chat in c0.readMarks && c.readMarks[chat] == c0.readMarks[chat] {
          var ch :| ch in before && ReadsUpTo(ch, chat, c0.readMarks[chat]);
          assert ch in changes;
        } else {
          assert ReadsUpTo(last, chat, c.readMarks[chat]);
        }
      }
    }
  }

  /** The album id is outside that guarantee: COALESCE keeps an older value when
      the newer version has none, but not the other way round. Module KeptFields
      says exactly when the order matters. */
  lemma GroupedIdDependsOnOrder()
    ensures
      var k := MessageKey(1, 1);
      var first := SyncRow(k, NO_CONTENT.(editDate := 1, grouped := Some(7)));
      var second := SyncRow(k, NO_CONTENT.(editDate := 2));
      var one, two := ApplyAll(EMPTY_CACHE, [first, second]), ApplyAll(EMPTY_CACHE, [second, first]);
      && k in one.messages && k in two.messages
      && one.messages[k].content.grouped == Some(7) && two.messages[k].content.grouped == None
  {
    var k := MessageKey(1, 1);
    var first := SyncRow(k, NO_CONTENT.(editDate := 1, grouped := Some(7)));
    var second := SyncRow(k, NO_CONTENT.(editDate := 2));
    assert [first, second][..1] == [first] && [second, first][..1] == [second];
    assert [first][..0] == [] && [second][..0] == [];
    assert ApplyAll(EMPTY_CACHE, [first]) == Apply(EMPTY_CACHE, first);
    assert ApplyAll(EMPTY_CACHE, [second]) == Apply(EMPTY_CACHE, second);
  }
}
