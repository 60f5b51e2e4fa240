/** The media columns of a cached message: exactly when their type, path and id
    do not depend on the order in which changes arrive. */
module MediaFields {
  import opened Wrappers
  import opened MessageCache
  import opened KeptFields

  datatype Part = TypePart | PathPart | IdPart

  datatype Media = Media(kind: Option<string>, path: Option<string>, id: Option<string>)

  function MediaOf(x: Content): Media {
    Media(x.mediaType, x.mediaPath, x.mediaId)
  }

  function Get(part: Part, m: Media): Option<string> {
    match part
    case TypePart => m.kind
    case PathPart => m.path
    case IdPart => m.id
  }

  /** What a change shows of the message; used for changes that show it. */
  function Of(ch: Change, k: MessageKey): Content {
    match EffectOn(ch, k)
    case Shows(x) => x
    case _ => NO_CONTENT
  }

  predicate AllShow(s: seq<Change>, k: MessageKey) {
    forall ch | ch in s :: EffectOn(ch, k).Shows?
  }

  function Showing(s: seq<Change>, k: MessageKey): seq<Change> {
    if s == [] then []
    else Showing(s[..|s| - 1], k) + if EffectOn(s[|s| - 1], k).Shows? then [s[|s| - 1]] else []
  }

  function MergedContent(ch: Change, x: Content, cur: Content): Content {
    if ch.BackfillRow? then MergeBackfill(Row(cur, false), x, ch.disposition).content
    else MergeLive(Row(cur, false), x).content
  }

  /** The row that changes which all show the message make of it. */
  function RowOf(s: seq<Change>, k: MessageKey): Content
    requires s != []
  {
    var before, last := s[..|s| - 1], s[|s| - 1];
    if before == [] then Of(last, k) else MergedContent(last, Of(last, k), RowOf(before, k))
  }

  function Run(s: seq<Change>, k: MessageKey): Media
    requires s != []
  {
    MediaOf(RowOf(s, k))
  }

  predicate SameId(a: Option<string>, b: Option<string>) {
    Coalesce(a, Some("")) == Coalesce(b, Some(""))
  }

  /** What a change that is not older makes of the media it finds. */
  function Updated(ch: Change, x: Content, m: Media): Media {
    match ch
    case BackfillRow(_, _, d) =>
      if d.DownloadedNow? || d.SkippedNow? then MediaOf(x)
      else if d.FailedNow? && x.mediaId.Some? && m.id == x.mediaId then m
      else if d.NoDisposition? then
        Media(if x.hasMedia && x.mediaType.None? then m.kind else x.mediaType,
              if x.hasMedia && x.mediaPath.None? then m.path else x.mediaPath, x.mediaId)
      else Media(x.mediaType, x.mediaPath, None)
    case _ =>
      var path :=
        if !x.hasMedia then None
        else if x.mediaPath.None? && (x.mediaId.None? || SameId(x.mediaId, m.id)) then m.path
        else x.mediaPath;
      Media(x.mediaType, path, x.mediaId)
  }

  lemma MergedMedia(ch: Change, x: Content, cur: Content)
    ensures MediaOf(MergedContent(ch, x, cur)) == if Newer(x, cur) then Updated(ch, x, MediaOf(cur)) else MediaOf(cur)
  {
  }

  /** Two contents of one version. */
  predicate SameVersionAs(a: Content, b: Content) {
    a.editDate == b.editDate && a.date == b.date
  }

  predicate NewerThanAll(x: Content, s: seq<Change>, k: MessageKey) {
    forall y | y in s :: Newer(x, Of(y, k))
  }

  lemma MergedVersion(ch: Change, x: Content, cur: Content)
    ensures var row := MergedContent(ch, x, cur);
      if Newer(x, cur) then SameVersionAs(row, x) else SameVersionAs(row, cur) && Newer(cur, x)
  {
    NewerIsTotal(x, cur);
  }

  /** The row has the greatest version among the changes. */
  lemma {:induction false} RowIsGreatest(s: seq<Change>, k: MessageKey) returns (top: Change)
    requires s != []
    ensures top in s && SameVersionAs(RowOf(s, k), Of(top, k)) && NewerThanAll(RowOf(s, k), s, k)
  {
    var before, last := s[..|s| - 1], s[|s| - 1];
    assert s == before + [last];
    NewerIsTotal(Of(last, k), Of(last, k));
    top := last;
    if before != [] {
      top := RowIsGreatest(before, k);
      top := GreatestOfMore(before, last, k, top, RowOf(before, k), RowOf(s, k));
    }
  }

  lemma GreatestOfMore(s: seq<Change>, x: Change, k: MessageKey, top: Change, cur: Content, row: Content) returns (top': Change)
    requires top in s && SameVersionAs(cur, Of(top, k)) && NewerThanAll(cur, s, k)
    requires row == MergedContent(x, Of(x, k), cur)
    ensures top' in s + [x] && SameVersionAs(row, Of(top', k)) && NewerThanAll(row, s + [x], k)
  {
    MergedVersion(x, Of(x, k), cur);
    NewerIsTotal(Of(x, k), Of(x, k));
    top' := if Newer(Of(x, k), cur) then x else top;
    forall y | y in s + [x] ensures Newer(row, Of(y, k)) {
      if y in s && Newer(Of(x, k), cur) {
        NewerIsTransitive(Of(x, k), cur, Of(y, k));
      }
    }
  }

  lemma LastMerges(s: seq<Change>, x: Change, k: MessageKey)
    requires s != []
    ensures Run(s + [x], k)
      == if Newer(Of(x, k), RowOf(s, k)) then Updated(x, Of(x, k), Run(s, k)) else Run(s, k)
  {
    assert (s + [x])[..|s|] == s;
    MergedMedia(x, Of(x, k), RowOf(s, k));
  }

  /** A change newer than all before it is applied; one that is older than some
      other is not. */
  lemma NewestApplies(s: seq<Change>, x: Change, k: MessageKey)
    requires s != []
    ensures NewerThanAll(Of(x, k), s, k) <==> Newer(Of(x, k), RowOf(s, k))
  {
    var top := RowIsGreatest(s, k);
    if Newer(Of(x, k), RowOf(s, k)) {
      forall y | y in s ensures Newer(Of(x, k), Of(y, k)) {
        NewerIsTransitive(Of(x, k), RowOf(s, k), Of(y, k));
      }
    }
  }

  // Which earlier changes can meet a given one.

  predicate DrawnFrom(c: seq<Change>, s: seq<Change>) {
    multiset(c) <= multiset(s)
  }

  function Without(s: seq<Change>, x: Change): seq<Change>
    requires x in s
  {
    if s[|s| - 1] == x then s[..|s| - 1] else
      assert s == s[..|s| - 1] + [s[|s| - 1]];
      Without(s[..|s| - 1], x) + [s[|s| - 1]]
  }

  function NotNewer(s: seq<Change>, x: Content, k: MessageKey): seq<Change> {
    if s == [] then []
    else NotNewer(s[..|s| - 1], x, k) + if Newer(x, Of(s[|s| - 1], k)) then [s[|s| - 1]] else []
  }

  /** The other changes that are not newer than x. */
  function Upto(s: seq<Change>, x: Change, k: MessageKey): seq<Change>
    requires x in s
  {
    NotNewer(Without(s, x), Of(x, k), k)
  }

  lemma {:induction false} WithoutIsOneLess(s: seq<Change>, x: Change)
    requires x in s
    ensures multiset(s) == multiset(Without(s, x)) + multiset{x}
  {
    var before, last := s[..|s| - 1], s[|s| - 1];
    assert s == before + [last];
    if last != x {
      WithoutIsOneLess(before, x);
    }
  }

  lemma {:induction false} NotNewerCounts(s: seq<Change>, x: Content, k: MessageKey, y: Change)
    ensures multiset(NotNewer(s, x, k))[y] == if Newer(x, Of(y, k)) then multiset(s)[y] else 0
  {
    if s != [] {
      NotNewerCounts(s[..|s| - 1], x, k, y);
      assert s == s[..|s| - 1] + [s[|s| - 1]];
    }
  }

  lemma UptoCounts(s: seq<Change>, x: Change, k: MessageKey, y: Change)
    requires x in s
    ensures multiset(Upto(s, x, k))[y]
      == if Newer(Of(x, k), Of(y, k)) then multiset(s)[y] - (if y == x then 1 else 0) else 0
  {
    WithoutIsOneLess(s, x);
    NotNewerCounts(Without(s, x), Of(x, k), k, y);
  }

  lemma UptoMembers(s: seq<Change>, x: Change, k: MessageKey)
    requires x in s
    ensures forall y | y in Upto(s, x, k) :: y in s && Newer(Of(x, k), Of(y, k))
  {
    forall y | y in Upto(s, x, k) ensures y in s && Newer(Of(x, k), Of(y, k)) {
      UptoCounts(s, x, k, y);
      assert y in multiset(Upto(s, x, k));
      assert y in multiset(s);
    }
  }

  lemma DrawnMembers(c: seq<Change>, s: seq<Change>)
    requires DrawnFrom(c, s)
    ensures forall y | y in c :: y in s
  {
    forall y | y in c ensures y in s {
      assert y in multiset(c);
      assert y in multiset(s);
    }
  }

  /** A chain can be made longer by a change that all of it may precede. */
  lemma Extends(s: seq<Change>, x: Change, c: seq<Change>, k: MessageKey)
    requires x in s && c != [] && DrawnFrom(c, Upto(s, x, k))
    ensures DrawnFrom(c + [x], s) && Run(c + [x], k) == Updated(x, Of(x, k), Run(c, k))
  {
    forall y ensures multiset(c + [x])[y] <= multiset(s)[y] {
      UptoCounts(s, x, k, y);
      assert multiset(c)[y] <= multiset(Upto(s, x, k))[y];
      assert x in multiset(s);
    }
    UptoMembers(s, x, k);
    DrawnMembers(c, Upto(s, x, k));
    NewestApplies(c, x, k);
    LastMerges(c, x, k);
  }

  /** And conversely the last change of a chain is ignored, or the chain before it
      consists of changes that may precede it. */
  lemma Shortens(s: seq<Change>, b: seq<Change>, x: Change, k: MessageKey)
    requires b != [] && DrawnFrom(b + [x], s)
    ensures x in s && DrawnFrom(b, s)
    ensures || Run(b + [x], k) == Run(b, k)
            || Follows(s, b, x, k, Run(b + [x], k))
  {
    DrawnMembers(b + [x], s);
    assert x in b + [x];
    forall y ensures multiset(b)[y] <= multiset(s)[y] {
      assert multiset(b + [x])[y] <= multiset(s)[y];
    }
    LastMerges(b, x, k);
    NewestApplies(b, x, k);
    if Newer(Of(x, k), RowOf(b, k)) {
      forall y ensures multiset(b)[y] <= multiset(Upto(s, x, k))[y] {
        UptoCounts(s, x, k, y);
        assert multiset(b + [x])[y] <= multiset(s)[y];
        if y in b {
          assert Newer(Of(x, k), Of(y, k));
        } else {
          assert y !in multiset(b);
        }
      }
      DrawnMembers(b, Upto(s, x, k));
      assert b[0] in b;
    }
  }

  /** How a chain ends. */
  lemma LastOfChain(s: seq<Change>, c: seq<Change>, k: MessageKey) returns (b: seq<Change>, x: Change)
    requires c != [] && DrawnFrom(c, s)
    ensures |b| < |c| && x in s
    ensures b == [] ==> Run(c, k) == MediaOf(Of(x, k))
    ensures b != [] ==> DrawnFrom(b, s) && (Run(c, k) == Run(b, k) || Follows(s, b, x, k, Run(c, k)))
  {
    b, x := c[..|c| - 1], c[|c| - 1];
    assert c == b + [x];
    DrawnMembers(c, s);
    assert x in c;
    if b != [] {
      Shortens(s, b, x, k);
    }
  }

  /** The media m is what x makes of the chain b that may precede it. */
  ghost predicate Follows(s: seq<Change>, b: seq<Change>, x: Change, k: MessageKey, m: Media) {
    && b != [] && x in s && DrawnFrom(b, Upto(s, x, k)) && Upto(s, x, k) != []
    && m == Updated(x, Of(x, k), Run(b, k))
  }

  // What chains of earlier changes can lead to, read off the changes themselves.

  predicate IsBackfill(ch: Change, d: Disposition) {
    ch.BackfillRow? && ch.disposition == d
  }

  /** A backfill that stores no media id over an existing row. */
  predicate DropsId(ch: Change) {
    IsBackfill(ch, OtherDisposition)
  }

  /** A plain backfill takes over a type or a path that it does not have. */
  predicate FillsType(ch: Change, k: MessageKey) {
    IsBackfill(ch, NoDisposition) && Of(ch, k).hasMedia && Of(ch, k).mediaType.None?
  }

  predicate FillsPath(ch: Change, k: MessageKey) {
    IsBackfill(ch, NoDisposition) && Of(ch, k).hasMedia && Of(ch, k).mediaPath.None?
  }

  /** A live or sync change with media but no path keeps the path of the same media. */
  predicate KeepsPath(ch: Change, k: MessageKey) {
    !ch.BackfillRow? && Of(ch, k).hasMedia && Of(ch, k).mediaPath.None?
  }

  /** These take over a path whatever media it belongs to. */
  predicate Inherits(ch: Change, k: MessageKey) {
    FillsPath(ch, k) || (KeepsPath(ch, k) && Of(ch, k).mediaId.None?)
  }

  ghost predicate AnyPath(s: seq<Change>, k: MessageKey) {
    exists y :: y in s && Of(y, k).mediaPath.Some?
  }

  ghost predicate AnyType(s: seq<Change>, k: MessageKey) {
    exists y :: y in s && Of(y, k).mediaType.Some?
  }

  ghost predicate OtherType(s: seq<Change>, k: MessageKey, kind: Option<string>) {
    exists y :: y in s && Of(y, k).mediaType != kind
  }

  /** The row can end up with another media id. */
  ghost predicate LosesId(s: seq<Change>, k: MessageKey, id: Option<string>) {
    exists y :: y in s && (Of(y, k).mediaId != id || (DropsId(y) && Upto(s, y, k) != []))
  }

  /** x can meet a row over which it stores no media id. */
  ghost predicate ForgetsId(s: seq<Change>, k: MessageKey, x: Change)
    requires x in s
  {
    || (DropsId(x) && Upto(s, x, k) != [])
    || (IsBackfill(x, FailedNow) && Of(x, k).mediaId.Some? && LosesId(Upto(s, x, k), k, Of(x, k).mediaId))
  }

  /** Some change has a path for this media id, */
  ghost predicate HasPathFor(s: seq<Change>, k: MessageKey, id: Option<string>) {
    exists y :: y in s && Of(y, k).mediaPath.Some? && SameId(id, Of(y, k).mediaId)
  }

  /** or puts this id on whatever path there is, */
  ghost predicate InheritsPathFor(s: seq<Change>, k: MessageKey, id: Option<string>) {
    exists z :: z in s && Inherits(z, k) && SameId(id, Of(z, k).mediaId) && AnyPath(Upto(s, z, k), k)
  }

  /** or has a path and no longer says which media it belongs to. */
  ghost predicate ForgetsWhosePath(s: seq<Change>, k: MessageKey) {
    exists x :: x in s && Of(x, k).mediaPath.Some? && ForgetsId(s, k, x)
  }

  /** The row can end up with a path, under the same media id. */
  ghost predicate HandsPath(s: seq<Change>, k: MessageKey, id: Option<string>) {
    HasPathFor(s, k, id) || InheritsPathFor(s, k, id) || (SameId(id, None) && ForgetsWhosePath(s, k))
  }

  /** The row can end up with this media id and another type. */
  ghost predicate TypeStrays(s: seq<Change>, k: MessageKey, id: Option<string>, kind: Option<string>) {
    || (exists y :: y in s && Of(y, k).mediaId == id && Of(y, k).mediaType != kind)
    || (exists z :: z in s && FillsType(z, k) && Of(z, k).mediaId == id && OtherType(Upto(s, z, k), k, kind))
  }

  /** Some change has this media id and another path, */
  ghost predicate HasOtherPath(s: seq<Change>, k: MessageKey, id: Option<string>, path: Option<string>) {
    exists y :: y in s && Of(y, k).mediaId == id && Of(y, k).mediaPath != path
  }

  /** or clears the path of a message without media, */
  ghost predicate ClearsPath(s: seq<Change>, k: MessageKey, id: Option<string>) {
    exists x :: x in s && !x.BackfillRow? && Of(x, k).mediaId == id && !Of(x, k).hasMedia && Upto(s, x, k) != []
  }

  /** or fills in any path there is, */
  ghost predicate FillsAnyPath(s: seq<Change>, k: MessageKey, id: Option<string>) {
    exists z :: z in s && FillsPath(z, k) && Of(z, k).mediaId == id && AnyPath(Upto(s, z, k), k)
  }

  /** or keeps a path it is handed. */
  ghost predicate KeepsHandedPath(s: seq<Change>, k: MessageKey, id: Option<string>) {
    exists z :: z in s && KeepsPath(z, k) && Of(z, k).mediaId == id && HandsPath(Upto(s, z, k), k, id)
  }

  /** The row can end up with this media id and another path. */
  ghost predicate PathStrays(s: seq<Change>, k: MessageKey, id: Option<string>, path: Option<string>) {
    || HasOtherPath(s, k, id, path) || (path.Some? && ClearsPath(s, k, id))
    || FillsAnyPath(s, k, id) || KeepsHandedPath(s, k, id)
  }

  /** Something among the earlier changes s can sway what the newest change t makes
      of the given column. */
  ghost predicate Sways(part: Part, s: seq<Change>, k: MessageKey, t: Change) {
    var x := Of(t, k);
    match part
    case TypePart =>
      || (FillsType(t, k) && AnyType(s, k))
      || (IsBackfill(t, FailedNow) && x.mediaId.Some? && TypeStrays(s, k, x.mediaId, x.mediaType))
    case IdPart =>
      || (IsBackfill(t, FailedNow) && x.mediaId.Some? && LosesId(s, k, x.mediaId))
      || (DropsId(t) && x.mediaId.Some? && s != [])
    case PathPart =>
      || (!t.BackfillRow? && !x.hasMedia && x.mediaPath.Some? && s != [])
      || (KeepsPath(t, k) && if x.mediaId.None? then AnyPath(s, k) else HandsPath(s, k, x.mediaId))
      || (FillsPath(t, k) && AnyPath(s, k))
      || (IsBackfill(t, FailedNow) && x.mediaId.Some? && PathStrays(s, k, x.mediaId, x.mediaPath))
  }

  // Every chain is accounted for.

  lemma {:induction false} PathComesFrom(s: seq<Change>, c: seq<Change>, k: MessageKey)
    requires c != [] && DrawnFrom(c, s) && Run(c, k).path.Some?
    ensures AnyPath(s, k)
    decreases |c|
  {
    var b, x := LastOfChain(s, c, k);
    if Of(x, k).mediaPath.None? {
      PathComesFrom(s, b, k);
    }
  }

  ghost predicate HasType(s: seq<Change>, k: MessageKey, kind: Option<string>) {
    exists y :: y in s && Of(y, k).mediaType == kind
  }

  lemma {:induction false} TypeComesFrom(s: seq<Change>, c: seq<Change>, k: MessageKey, kind: Option<string>)
    requires c != [] && DrawnFrom(c, s) && Run(c, k).kind == kind && kind.Some?
    ensures HasType(s, k, kind)
    decreases |c|
  {
    var b, x := LastOfChain(s, c, k);
    if Of(x, k).mediaType != kind {
      TypeComesFrom(s, b, k, kind);
    }
  }

  lemma {:induction false} LostIdComesFrom(s: seq<Change>, c: seq<Change>, k: MessageKey, id: Option<string>)
    requires c != [] && DrawnFrom(c, s) && id.Some? && Run(c, k).id != id
    ensures LosesId(s, k, id)
    decreases |c|
  {
    var b, x := LastOfChain(s, c, k);
    if Of(x, k).mediaId == id {
      if Run(b, k).id != id {
        LostIdComesFrom(s, b, k, id);
      } else {
        assert DropsId(x);
      }
    }
  }

  lemma {:induction false} HandedPathComesFrom(s: seq<Change>, c: seq<Change>, k: MessageKey, id: Option<string>)
    requires c != [] && DrawnFrom(c, s) && Run(c, k).path.Some? && SameId(id, Run(c, k).id)
    ensures HandsPath(s, k, id)
    decreases |c|
  {
    var b, x := LastOfChain(s, c, k);
    if b != [] {
      if Run(b, k).path.Some? && SameId(id, Run(b, k).id) {
        HandedPathComesFrom(s, b, k, id);
      } else if !(Of(x, k).mediaPath.Some? && SameId(id, Of(x, k).mediaId)) {
        PathWasHanded(s, b, x, k, id, Run(c, k));
      }
    }
  }

  /** What the last change did if neither it nor the row before had such a path. */
  lemma PathWasHanded(s: seq<Change>, b: seq<Change>, x: Change, k: MessageKey, id: Option<string>, m: Media)
    requires Follows(s, b, x, k, m) && m.path.Some? && SameId(id, m.id)
    requires !(Run(b, k).path.Some? && SameId(id, Run(b, k).id))
    requires !(Of(x, k).mediaPath.Some? && SameId(id, Of(x, k).mediaId))
    ensures InheritsPathFor(s, k, id) || (SameId(id, None) && ForgetsWhosePath(s, k))
  {
    if Of(x, k).mediaPath.None? {
      assert Inherits(x, k) && SameId(id, Of(x, k).mediaId);
      PathComesFrom(Upto(s, x, k), b, k);
    } else {
      assert x.BackfillRow? && SameId(id, None);
      if !DropsId(x) {
        LostIdComesFrom(Upto(s, x, k), b, k, Of(x, k).mediaId);
      }
      assert ForgetsId(s, k, x);
    }
  }

  lemma {:induction false} StrayTypeComesFrom(s: seq<Change>, c: seq<Change>, k: MessageKey, id: Option<string>, kind: Option<string>)
    requires c != [] && DrawnFrom(c, s) && id.Some? && Run(c, k).id == id && Run(c, k).kind != kind
    ensures TypeStrays(s, k, id, kind)
    decreases |c|
  {
    var b, x := LastOfChain(s, c, k);
    if b != [] && !(Of(x, k).mediaId == id && Of(x, k).mediaType != kind) {
      if Run(b, k).id == id && Run(b, k).kind != kind {
        StrayTypeComesFrom(s, b, k, id, kind);
      } else {
        TypeHasStrayed(s, b, x, k, id, kind, Run(c, k));
      }
    }
  }

  /** What the last change did if neither it nor the row before had strayed. */
  lemma TypeHasStrayed(s: seq<Change>, b: seq<Change>, x: Change, k: MessageKey, id: Option<string>, kind: Option<string>, m: Media)
    requires Follows(s, b, x, k, m) && id.Some? && m.id == id && m.kind != kind
    requires !(Run(b, k).id == id && Run(b, k).kind != kind)
    requires !(Of(x, k).mediaId == id && Of(x, k).mediaType != kind)
    ensures TypeStrays(s, k, id, kind)
  {
    assert FillsType(x, k) && Of(x, k).mediaId == id && kind.None?;
    TypeComesFrom(Upto(s, x, k), b, k, Run(b, k).kind);
  }

  lemma {:induction false} StrayPathComesFrom(s: seq<Change>, c: seq<Change>, k: MessageKey, id: Option<string>, path: Option<string>)
    requires c != [] && DrawnFrom(c, s) && id.Some? && Run(c, k).id == id && Run(c, k).path != path
    ensures PathStrays(s, k, id, path)
    decreases |c|
  {
    var b, x := LastOfChain(s, c, k);
    if b != [] && !(Of(x, k).mediaId == id && Of(x, k).mediaPath != path) {
      if Run(b, k).id == id && Run(b, k).path != path {
        StrayPathComesFrom(s, b, k, id, path);
      } else {
        PathHasStrayed(s, b, x, k, id, path, Run(c, k));
      }
    }
  }

  /** What the last change did if neither it nor the row before had strayed. */
  lemma PathHasStrayed(s: seq<Change>, b: seq<Change>, x: Change, k: MessageKey, id: Option<string>, path: Option<string>, m: Media)
    requires Follows(s, b, x, k, m) && id.Some? && m.id == id && m.path != path
    requires !(Run(b, k).id == id && Run(b, k).path != path)
    requires !(Of(x, k).mediaId == id && Of(x, k).mediaPath != path)
    ensures (path.Some? && ClearsPath(s, k, id)) || FillsAnyPath(s, k, id) || KeepsHandedPath(s, k, id)
  {
    assert Of(x, k).mediaId == id && Of(x, k).mediaPath == path;
    if FillsPath(x, k) {
      PathComesFrom(Upto(s, x, k), b, k);
    } else if KeepsPath(x, k) {
      HandedPathComesFrom(Upto(s, x, k), b, k, id);
    }
  }

  // And everything accounted for has a chain.

  lemma OneIsAChain(s: seq<Change>, y: Change, k: MessageKey)
    requires y in s
    ensures DrawnFrom([y], s) && Run([y], k) == MediaOf(Of(y, k))
  {
    assert y in multiset(s);
    assert [y][..0] == [];
  }

  lemma ChainToLostId(s: seq<Change>, k: MessageKey, id: Option<string>) returns (c: seq<Change>)
    requires id.Some? && LosesId(s, k, id)
    ensures c != [] && DrawnFrom(c, s) && Run(c, k).id != id
  {
    var y :| y in s && (Of(y, k).mediaId != id || (DropsId(y) && Upto(s, y, k) != []));
    if Of(y, k).mediaId != id {
      c := [y];
      OneIsAChain(s, y, k);
    } else {
      var w := Upto(s, y, k)[0];
      OneIsAChain(Upto(s, y, k), w, k);
      Extends(s, y, [w], k);
      c := [w] + [y];
    }
  }

  lemma ChainOfTwo(s: seq<Change>, z: Change, w: Change, k: MessageKey)
    requires z in s && w in Upto(s, z, k)
    ensures DrawnFrom([w, z], s) && Run([w, z], k) == Updated(z, Of(z, k), MediaOf(Of(w, k)))
  {
    OneIsAChain(Upto(s, z, k), w, k);
    Extends(s, z, [w], k);
    assert [w] + [z] == [w, z];
  }

  lemma ChainThatForgets(s: seq<Change>, k: MessageKey, x: Change) returns (c: seq<Change>)
    requires x in s && ForgetsId(s, k, x)
    ensures c != [] && DrawnFrom(c, s) && Run(c, k) == Media(Of(x, k).mediaType, Of(x, k).mediaPath, None)
  {
    var b;
    if DropsId(x) {
      b := [Upto(s, x, k)[0]];
      OneIsAChain(Upto(s, x, k), b[0], k);
    } else {
      b := ChainToLostId(Upto(s, x, k), k, Of(x, k).mediaId);
    }
    Extends(s, x, b, k);
    c := b + [x];
  }

  lemma ChainToPath(s: seq<Change>, k: MessageKey, id: Option<string>) returns (c: seq<Change>)
    requires HandsPath(s, k, id)
    ensures c != [] && DrawnFrom(c, s) && Run(c, k).path.Some? && SameId(id, Run(c, k).id)
  {
    if HasPathFor(s, k, id) {
      var y :| y in s && Of(y, k).mediaPath.Some? && SameId(id, Of(y, k).mediaId);
      c := [y];
      OneIsAChain(s, y, k);
    } else if InheritsPathFor(s, k, id) {
      c := ChainThatInherits(s, k, id);
    } else {
      var x :| x in s && Of(x, k).mediaPath.Some? && ForgetsId(s, k, x);
      c := ChainThatForgets(s, k, x);
    }
  }

  lemma ChainThatInherits(s: seq<Change>, k: MessageKey, id: Option<string>) returns (c: seq<Change>)
    requires InheritsPathFor(s, k, id)
    ensures c != [] && DrawnFrom(c, s) && Run(c, k).path.Some? && SameId(id, Run(c, k).id)
  {
    var z :| z in s && Inherits(z, k) && SameId(id, Of(z, k).mediaId) && AnyPath(Upto(s, z, k), k);
    var w :| w in Upto(s, z, k) && Of(w, k).mediaPath.Some?;
    c := [w, z];
    ChainOfTwo(s, z, w, k);
  }

  lemma ChainToStrayType(s: seq<Change>, k: MessageKey, id: Option<string>, kind: Option<string>) returns (c: seq<Change>)
    requires id.Some? && TypeStrays(s, k, id, kind)
    ensures c != [] && DrawnFrom(c, s) && Run(c, k).id == id && Run(c, k).kind != kind
  {
    if y :| y in s && Of(y, k).mediaId == id && Of(y, k).mediaType != kind {
      c := [y];
      OneIsAChain(s, y, k);
    } else {
      var z :| z in s && FillsType(z, k) && Of(z, k).mediaId == id && OtherType(Upto(s, z, k), k, kind);
      var w :| w in Upto(s, z, k) && Of(w, k).mediaType != kind;
      c := [w, z];
      ChainOfTwo(s, z, w, k);
    }
  }

  lemma ChainToStrayPath(s: seq<Change>, k: MessageKey, id: Option<string>, path: Option<string>) returns (c: seq<Change>)
    requires id.Some? && PathStrays(s, k, id, path)
    ensures c != [] && DrawnFrom(c, s) && Run(c, k).id == id && Run(c, k).path != path
  {
    if HasOtherPath(s, k, id, path) {
      var y :| y in s && Of(y, k).mediaId == id && Of(y, k).mediaPath != path;
      c := [y];
      OneIsAChain(s, y, k);
    } else if path.Some? && ClearsPath(s, k, id) {
      c := ChainThatClears(s, k, id);
    } else if FillsAnyPath(s, k, id) {
      c := ChainThatFills(s, k, id);
      assert path.None?;
    } else {
      c := ChainThatKeeps(s, k, id);
      assert path.None?;
    }
  }

  lemma ChainThatClears(s: seq<Change>, k: MessageKey, id: Option<string>) returns (c: seq<Change>)
    requires ClearsPath(s, k, id)
    ensures c != [] && DrawnFrom(c, s) && Run(c, k).id == id && Run(c, k).path.None?
  {
    var x :| x in s && !x.BackfillRow? && Of(x, k).mediaId == id && !Of(x, k).hasMedia && Upto(s, x, k) != [];
    c := [Upto(s, x, k)[0], x];
    ChainOfTwo(s, x, c[0], k);
  }

  lemma ChainThatFills(s: seq<Change>, k: MessageKey, id: Option<string>) returns (c: seq<Change>)
    requires FillsAnyPath(s, k, id)
    ensures c != [] && DrawnFrom(c, s) && Run(c, k).id == id && Run(c, k).path.Some?
    ensures exists z :: z in s && Of(z, k).mediaId == id && Of(z, k).mediaPath.None?
  {
    var z :| z in s && FillsPath(z, k) && Of(z, k).mediaId == id && AnyPath(Upto(s, z, k), k);
    var w :| w in Upto(s, z, k) && Of(w, k).mediaPath.Some?;
    c := [w, z];
    ChainOfTwo(s, z, w, k);
  }

  lemma ChainThatKeeps(s: seq<Change>, k: MessageKey, id: Option<string>) returns (c: seq<Change>)
    requires KeepsHandedPath(s, k, id)
    ensures c != [] && DrawnFrom(c, s) && Run(c, k).id == id && Run(c, k).path.Some?
    ensures exists z :: z in s && Of(z, k).mediaId == id && Of(z, k).mediaPath.None?
  {
    var z :| z in s && KeepsPath(z, k) && Of(z, k).mediaId == id && HandsPath(Upto(s, z, k), k, id);
    var b := ChainToPath(Upto(s, z, k), k, id);
    Extends(s, z, b, k);
    c := b + [z];
  }

  /** t on top of the chain leaves another value than t alone. */
  predicate Swayed(part: Part, c: seq<Change>, k: MessageKey, t: Change)
    requires c != []
  {
    Get(part, Updated(t, Of(t, k), Run(c, k))) != Get(part, MediaOf(Of(t, k)))
  }

  lemma SwayedIsSeen(part: Part, s: seq<Change>, c: seq<Change>, k: MessageKey, t: Change)
    requires c != [] && DrawnFrom(c, s) && Swayed(part, c, k, t)
    ensures Sways(part, s, k, t)
  {
    var x, m := Of(t, k), Run(c, k);
    DrawnMembers(c, s);
    assert c[0] in s;
    match part
    case TypePart =>
      if FillsType(t, k) {
        TypeComesFrom(s, c, k, m.kind);
      } else {
        StrayTypeComesFrom(s, c, k, x.mediaId, x.mediaType);
      }
    case IdPart =>
      if IsBackfill(t, FailedNow) {
        LostIdComesFrom(s, c, k, x.mediaId);
      }
    case PathPart =>
      if FillsPath(t, k) || (KeepsPath(t, k) && x.mediaId.None?) {
        PathComesFrom(s, c, k);
      } else if KeepsPath(t, k) {
        HandedPathComesFrom(s, c, k, x.mediaId);
      } else if IsBackfill(t, FailedNow) {
        StrayPathComesFrom(s, c, k, x.mediaId, x.mediaPath);
      }
  }

  lemma SwaysHasChain(part: Part, s: seq<Change>, k: MessageKey, t: Change) returns (c: seq<Change>)
    requires Sways(part, s, k, t)
    ensures c != [] && DrawnFrom(c, s) && Swayed(part, c, k, t)
  {
    var x := Of(t, k);
    match part
    case TypePart =>
      if FillsType(t, k) {
        var y :| y in s && Of(y, k).mediaType.Some?;
        c := [y];
        OneIsAChain(s, y, k);
      } else {
        c := ChainToStrayType(s, k, x.mediaId, x.mediaType);
      }
    case IdPart =>
      if IsBackfill(t, FailedNow) {
        c := ChainToLostId(s, k, x.mediaId);
      } else {
        c := [s[0]];
        OneIsAChain(s, s[0], k);
      }
    case PathPart =>
      if FillsPath(t, k) || (KeepsPath(t, k) && x.mediaId.None?) {
        var y :| y in s && Of(y, k).mediaPath.Some?;
        c := [y];
        OneIsAChain(s, y, k);
      } else if KeepsPath(t, k) {
        c := ChainToPath(s, k, x.mediaId);
      } else if IsBackfill(t, FailedNow) {
        c := ChainToStrayPath(s, k, x.mediaId, x.mediaPath);
      } else {
        c := [s[0]];
        OneIsAChain(s, s[0], k);
      }
  }

  // From chains back to whole histories.

  /** The column as it is cached. */
  function Stored(part: Part, c: Cache, k: MessageKey): Option<string> {
    if k in c.messages then Get(part, MediaOf(c.messages[k].content)) else None
  }

  lemma RowShown(c: Cache, ch: Change, k: MessageKey)
    requires EffectOn(ch, k).Shows?
    ensures var c' := Apply(c, ch);
      && k in c'.messages
      && (k !in c.messages ==> c'.messages[k] == Row(Of(ch, k), SharesMessageIds(k.chat) && k.id in c.common))
      && (k in c.messages && !c.messages[k].deleted ==>
            c'.messages[k] == Row(MergedContent(ch, Of(ch, k), c.messages[k].content), false))
  {
  }

  /** The row agrees with the changes that show the message. */
  ghost predicate RowAgrees(c: Cache, h: seq<Change>, k: MessageKey) {
    && (k in c.messages <==> h != [])
    && (k in c.messages ==> c.messages[k] == Row(RowOf(h, k), false))
  }

  lemma RowStillAgrees(c: Cache, h: seq<Change>, ch: Change, k: MessageKey)
    requires RowAgrees(c, h, k) && EffectOn(ch, k).Shows? && !(SharesMessageIds(k.chat) && k.id in c.common)
    ensures RowAgrees(Apply(c, ch), h + [ch], k)
  {
    RowShown(c, ch, k);
    assert (h + [ch])[..|h|] == h;
  }

  /** The cached row of a message that nobody deleted. */
  lemma {:induction false} CachedRow(s: seq<Change>, k: MessageKey)
    requires Undeleted(s, k)
    ensures RowAgrees(ApplyAll(EMPTY_CACHE, s), Showing(s, k), k)
  {
    if s != [] {
      var before, last := s[..|s| - 1], s[|s| - 1];
      var c := ApplyAll(EMPTY_CACHE, before);
      assert s == before + [last];
      PrefixUndeleted(before, last, k);
      CachedRow(before, k);
      if EffectOn(last, k).Shows? {
        assert !(SharesMessageIds(k.chat) && k.id in c.common) by {
          CacheExplained(before, k);
        }
        RowStillAgrees(c, Showing(before, k), last, k);
      } else {
        RowAfter(c, last, k);
        assert Showing(s, k) == Showing(before, k);
      }
    }
  }

  lemma {:induction false} ShowingCounts(s: seq<Change>, k: MessageKey, y: Change)
    ensures multiset(Showing(s, k))[y] == if EffectOn(y, k).Shows? then multiset(s)[y] else 0
  {
    if s != [] {
      ShowingCounts(s[..|s| - 1], k, y);
      assert s == s[..|s| - 1] + [s[|s| - 1]];
    }
  }

  lemma {:induction false} ShowingOfTwo(a: seq<Change>, b: seq<Change>, k: MessageKey)
    ensures Showing(a + b, k) == Showing(a, k) + Showing(b, k)
  {
    if b == [] {
      assert a + b == a;
    } else {
      ShowingOfTwo(a, b[..|b| - 1], k);
      assert (a + b)[..|a + b| - 1] == a + b[..|b| - 1];
    }
  }

  lemma {:induction false} ShowingAll(s: seq<Change>, k: MessageKey)
    requires AllShow(s, k)
    ensures Showing(s, k) == s
  {
    if s != [] {
      ShowingAll(s[..|s| - 1], k);
    }
  }

  /** t is newer than every one of the changes. */
  ghost predicate Newest(s: seq<Change>, k: MessageKey, t: Change) {
    EffectOn(t, k).Shows? && forall y | y in s && EffectOn(y, k).Shows? :: !Newer(Of(y, k), Of(t, k))
  }

  /** Only what came before the newest change matters. */
  lemma {:induction false} NewestDecides(pre: seq<Change>, t: Change, post: seq<Change>, k: MessageKey)
    requires AllShow(pre, k) && AllShow(post, k) && Newest(pre, k, t) && Newest(post, k, t)
    ensures Run(pre + [t] + post, k) == if pre == [] then MediaOf(Of(t, k)) else Updated(t, Of(t, k), Run(pre, k))
  {
    if post == [] {
      assert pre + [t] + post == pre + [t];
      if pre == [] {
        assert pre + [t] == [t] && [t][..0] == [];
      } else {
        forall y | y in pre ensures Newer(Of(t, k), Of(y, k)) {
          NewerIsTotal(Of(t, k), Of(y, k));
        }
        NewestApplies(pre, t, k);
        LastMerges(pre, t, k);
      }
    } else {
      var before, last := post[..|post| - 1], post[|post| - 1];
      NewestDecides(pre, t, before, k);
      var front := pre + [t] + before;
      assert pre + [t] + post == front + [last];
      assert t in front && !Newer(Of(last, k), Of(t, k));
      NewestApplies(front, last, k);
      LastMerges(front, last, k);
    }
  }

  /** The column after a history in which t arrived behind pre. */
  lemma StoredBehind(part: Part, pre: seq<Change>, t: Change, post: seq<Change>, k: MessageKey)
    requires Undeleted(pre + [t] + post, k) && Newest(pre, k, t) && Newest(post, k, t)
    ensures var c := Showing(pre, k);
      Stored(part, ApplyAll(EMPTY_CACHE, pre + [t] + post), k)
        == Get(part, if c == [] then MediaOf(Of(t, k)) else Updated(t, Of(t, k), Run(c, k)))
  {
    var c, d := Showing(pre, k), Showing(post, k);
    ShowingOfTwo(pre + [t], post, k);
    ShowingOfTwo(pre, [t], k);
    assert [t][..0] == [];
    ShowingShow(pre, k);
    ShowingShow(post, k);
    CachedRow(pre + [t] + post, k);
    NewestDecides(c, t, d, k);
  }

  lemma ShowingShow(s: seq<Change>, k: MessageKey)
    ensures AllShow(Showing(s, k), k) && forall y | y in Showing(s, k) :: y in s
  {
    forall y | y in Showing(s, k) ensures EffectOn(y, k).Shows? && y in s {
      ShowingCounts(s, k, y);
      assert y in multiset(Showing(s, k));
      assert y in multiset(s);
    }
  }

  lemma {:induction false} TakeOutAll(s: seq<Change>, c: seq<Change>) returns (rest: seq<Change>)
    requires DrawnFrom(c, s)
    ensures multiset(rest) + multiset(c) == multiset(s)
  {
    if c == [] {
      rest := s;
    } else {
      var b, x := c[..|c| - 1], c[|c| - 1];
      assert c == b + [x];
      assert multiset(b) <= multiset(c);
      var more := TakeOutAll(s, b);
      assert multiset(more)[x] == multiset(s)[x] - multiset(b)[x] && multiset(c)[x] == multiset(b)[x] + 1;
      assert x in multiset(more);
      WithoutIsOneLess(more, x);
      rest := Without(more, x);
    }
  }

  lemma ReorderedNewest(s: seq<Change>, other: seq<Change>, k: MessageKey, t: Change)
    requires Newest(s, k, t) && Reordered(other, s + [t])
    ensures exists pre, post :: other == pre + [t] + post && multiset(pre + post) == multiset(s)
  {
    ReorderedMembers(other, s + [t]);
    assert t in s + [t];
    var i :| 0 <= i < |other| && other[i] == t;
    var pre, post := other[..i], other[i + 1..];
    assert other == pre + [t] + post;
    forall y ensures multiset(pre + post)[y] == multiset(s)[y] {
      assert multiset(other)[y] == multiset(pre + post)[y] + multiset{t}[y];
      assert multiset(s + [t])[y] == multiset(s)[y] + multiset{t}[y];
    }
  }

  lemma PartsAreOlder(s: seq<Change>, pre: seq<Change>, post: seq<Change>, k: MessageKey, t: Change)
    requires Newest(s, k, t) && multiset(pre + post) == multiset(s)
    ensures Newest(pre, k, t) && Newest(post, k, t) && DrawnFrom(Showing(pre, k), Showing(s, k))
  {
    ReorderedMembers(pre + post, s);
    assert forall y | y in pre || y in post :: y in pre + post;
    forall y ensures multiset(Showing(pre, k))[y] <= multiset(Showing(s, k))[y] {
      ShowingCounts(pre, k, y);
      ShowingCounts(s, k, y);
      assert multiset(pre + post)[y] == multiset(pre)[y] + multiset(post)[y];
    }
  }

  lemma UnswayedIsFree(part: Part, s: seq<Change>, k: MessageKey, t: Change, other: seq<Change>)
    requires Undeleted(s + [t], k) && Newest(s, k, t) && Reordered(other, s + [t])
    requires !Sways(part, Showing(s, k), k, t)
    ensures Stored(part, ApplyAll(EMPTY_CACHE, other), k) == Get(part, MediaOf(Of(t, k)))
  {
    ReorderedNewest(s, other, k, t);
    var pre, post :| other == pre + [t] + post && multiset(pre + post) == multiset(s);
    PartsAreOlder(s, pre, post, k, t);
    ReorderedMembers(other, s + [t]);
    SameMembersSameFacts(AlbumId, other, s + [t], k);
    StoredBehind(part, pre, t, post, k);
    var c := Showing(pre, k);
    if c != [] && Swayed(part, c, k, t) {
      SwayedIsSeen(part, Showing(s, k), c, k, t);
    }
  }

  /** Some order puts the chain c right before t. */
  lemma ChainFirst(part: Part, s: seq<Change>, k: MessageKey, t: Change, c: seq<Change>) returns (one: seq<Change>)
    requires Undeleted(s + [t], k) && Newest(s, k, t) && DrawnFrom(c, s) && AllShow(c, k)
    ensures Reordered(one, s + [t])
    ensures Stored(part, ApplyAll(EMPTY_CACHE, one), k)
      == Get(part, if c == [] then MediaOf(Of(t, k)) else Updated(t, Of(t, k), Run(c, k)))
  {
    var rest := TakeOutAll(s, c);
    one := c + [t] + rest;
    assert multiset(c + rest) == multiset(s);
    assert multiset(one) == multiset(c) + multiset{t} + multiset(rest);
    ReorderedMembers(one, s + [t]);
    SameMembersSameFacts(AlbumId, one, s + [t], k);
    PartsAreOlder(s, c, rest, k, t);
    StoredBehind(part, c, t, rest, k);
    ShowingAll(c, k);
  }

  lemma SwayedIsNotFree(part: Part, s: seq<Change>, k: MessageKey, t: Change) returns (one: seq<Change>, two: seq<Change>)
    requires Undeleted(s + [t], k) && Newest(s, k, t) && Sways(part, Showing(s, k), k, t)
    ensures Reordered(one, s + [t]) && Reordered(two, s + [t])
    ensures Stored(part, ApplyAll(EMPTY_CACHE, one), k) != Stored(part, ApplyAll(EMPTY_CACHE, two), k)
  {
    var h := Showing(s, k);
    var c := SwaysHasChain(part, h, k, t);
    ShowingShow(s, k);
    DrawnMembers(c, h);
    forall y ensures multiset(c)[y] <= multiset(s)[y] {
      ShowingCounts(s, k, y);
      assert multiset(c)[y] <= multiset(h)[y];
    }
    one := ChainFirst(part, s, k, t, c);
    two := ChainFirst(part, s, k, t, []);
  }

  /** MEDIA COLUMNS EXACTLY. Of a message that nobody deleted and whose newest
      version is shown by one change t, the media type, path or id is the same for
      every order of all its changes if and only if nothing earlier can sway it. */
  lemma MediaFreeExactly(part: Part, s: seq<Change>, k: MessageKey, t: Change)
    requires Undeleted(s + [t], k) && Newest(s, k, t)
    ensures !Sways(part, Showing(s, k), k, t)
      <==> forall other | Reordered(other, s + [t]) ::
             Stored(part, ApplyAll(EMPTY_CACHE, other), k) == Stored(part, ApplyAll(EMPTY_CACHE, s + [t]), k)
  {
    if Sways(part, Showing(s, k), k, t) {
      var one, two := SwayedIsNotFree(part, s, k, t);
      assert Reordered(one, s + [t]) && Reordered(two, s + [t]);
    } else {
      forall other | Reordered(other, s + [t])
        ensures Stored(part, ApplyAll(EMPTY_CACHE, other), k) == Stored(part, ApplyAll(EMPTY_CACHE, s + [t]), k)
      {
        UnswayedIsFree(part, s, k, t, other);
        UnswayedIsFree(part, s, k, t, s + [t]);
      }
    }
  }
}
