/** The backfill insert under a row cap and a byte cap, in one transaction with
    a savepoint around every row. */
module CappedInsert {
  import opened Wrappers
  import opened MessageCache

  datatype SourceRow = SourceRow(chat: int, id: int, content: Content, disposition: Disposition)

  predicate IsSpace(c: char) {
    || c in " \t\n\r"
    || c in "\U{000b}\U{000c}\U{0085}\U{00a0}\U{1680}\U{2028}\U{2029}\U{202f}\U{205f}\U{3000}"
    || '\U{2000}' <= c <= '\U{200a}'
  }

  /** White space as Unicode has it. */
  lemma SpacesExactly(c: char)
    ensures IsSpace(c) <==>
      (c as int) in {9, 10, 11, 12, 13, 32, 0x85, 0xA0, 0x1680, 0x2028, 0x2029, 0x202F, 0x205F, 0x3000}
      || 0x2000 <= c as int <= 0x200A
  {
  }

  predicate HasMediaPath(row: SourceRow) {
    row.content.mediaPath.Some? && exists i :: 0 <= i < |row.content.mediaPath.value| && !IsSpace(row.content.mediaPath.value[i])
  }

  function MediaPaths(rows: seq<SourceRow>): nat {
    if rows == [] then 0
    else MediaPaths(rows[..|rows| - 1]) + if HasMediaPath(rows[|rows| - 1]) then 1 else 0
  }

  function ActiveKeys(c: Cache, chat: int): set<MessageKey> {
    set k | k in c.messages && k.chat == chat && !c.messages[k].deleted
  }

  /** SELECT COUNT(*) of the chat's rows that are not tombstones. */
  function Active(c: Cache, chat: int): nat {
    |ActiveKeys(c, chat)|
  }

  datatype Caps = Caps(chat: int, maxMessages: int, maxBytes: int, size: Cache -> nat)

  /** The key a row is stored under. */
  function Target(caps: Caps, row: SourceRow): MessageKey {
    MessageKey(if row.chat == 0 then caps.chat else row.chat, row.id)
  }

  predicate IsActive(c: Cache, k: MessageKey) {
    k in c.messages && !c.messages[k].deleted
  }

  function Candidate(caps: Caps, c: Cache, row: SourceRow): Cache {
    UpsertBackfill(c, Target(caps, row), row.content, row.disposition)
  }

  datatype Load = Load(cache: Cache, current: int, inserted: nat, full: bool, skippedMedia: nat)

  function Start(caps: Caps, c: Cache): Load {
    Load(c, Active(c, caps.chat), 0, caps.maxBytes > 0 && caps.size(c) >= caps.maxBytes, 0)
  }

  predicate OverCount(caps: Caps, l: Load, row: SourceRow) {
    l.current >= caps.maxMessages && !IsActive(l.cache, Target(caps, row))
  }

  predicate Overflows(caps: Caps, l: Load, row: SourceRow) {
    !l.full && !OverCount(caps, l, row) && caps.maxBytes > 0 && caps.size(Candidate(caps, l.cache, row)) > caps.maxBytes
  }

  /** One more row. Once full, rows only add to the count of skipped media. */
  function Next(caps: Caps, l: Load, row: SourceRow): Load {
    var media := if HasMediaPath(row) then 1 else 0;
    if l.full || OverCount(caps, l, row) then l.(skippedMedia := l.skippedMedia + media)
    else if Overflows(caps, l, row) then l.(full := true, skippedMedia := media)
    else Load(Candidate(caps, l.cache, row), l.current + (if IsActive(l.cache, Target(caps, row)) then 0 else 1),
              l.inserted + 1, false, l.skippedMedia)
  }

  function LoadAll(caps: Caps, c: Cache, rows: seq<SourceRow>): Load {
    if rows == [] then Start(caps, c) else Next(caps, LoadAll(caps, c, rows[..|rows| - 1]), rows[|rows| - 1])
  }

  lemma OneKeyChanged(c: Cache, c': Cache, chat: int, k: MessageKey)
    requires forall m | m != k :: IsActive(c', m) <==> IsActive(c, m)
    requires IsActive(c, k) ==> IsActive(c', k)
    ensures Active(c', chat) == Active(c, chat) + if k.chat == chat && !IsActive(c, k) && IsActive(c', k) then 1 else 0
  {
    var gained := k.chat == chat && !IsActive(c, k) && IsActive(c', k);
    forall m ensures m in ActiveKeys(c', chat) <==> m in ActiveKeys(c, chat) + if gained then {k} else {} {
      assert IsActive(c', m) <==> IsActive(c, m) || (m == k && IsActive(c', k));
    }
    assert ActiveKeys(c', chat) == ActiveKeys(c, chat) + if gained then {k} else {};
    assert gained ==> k !in ActiveKeys(c, chat);
  }

  /** A row becomes active only where there was none and no common tombstone. */
  lemma ActiveAfter(caps: Caps, c: Cache, row: SourceRow)
    ensures
      var k := Target(caps, row);
      var c' := Candidate(caps, c, row);
      var gained := if k.chat == caps.chat && !IsActive(c, k) && IsActive(c', k) then 1 else 0;
      && Active(c', caps.chat) == Active(c, caps.chat) + gained
      && (IsActive(c, k) ==> IsActive(c', k))
      && (IsActive(c', k) ==> IsActive(c, k) || k !in c.messages)
  {
    OneKeyChanged(c, Candidate(caps, c, row), caps.chat, Target(caps, row));
  }

  /** Rows that were let in under the row cap but did not become active rows of
      the chat: tombstones, and rows of another chat. */
  function Absorbed(caps: Caps, c: Cache, rows: seq<SourceRow>): nat {
    if rows == [] then 0
    else
      var l, row := LoadAll(caps, c, rows[..|rows| - 1]), rows[|rows| - 1];
      var k := Target(caps, row);
      Absorbed(caps, c, rows[..|rows| - 1])
      + if Next(caps, l, row).inserted > l.inserted && !IsActive(l.cache, k)
           && (k.chat != caps.chat || !IsActive(Candidate(caps, l.cache, row), k)) then 1 else 0
  }

  /** CONSERVATION. The loop's counter is the number of active rows plus those
      absorbed, so the row cap refuses a new row exactly when that sum is at the
      maximum. */
  lemma {:induction false} CounterConserved(caps: Caps, c: Cache, rows: seq<SourceRow>)
    ensures var l := LoadAll(caps, c, rows);
      l.current == Active(l.cache, caps.chat) + Absorbed(caps, c, rows)
  {
    if rows != [] {
      var before, row := rows[..|rows| - 1], rows[|rows| - 1];
      CounterConserved(caps, c, before);
      ActiveAfter(caps, LoadAll(caps, c, before).cache, row);
    }
  }

  /** ROW CAP. */
  lemma {:induction false} ActiveRowsBounded(caps: Caps, c: Cache, rows: seq<SourceRow>)
    ensures var l := LoadAll(caps, c, rows);
      Active(l.cache, caps.chat) <= l.current <= Max(Active(c, caps.chat), caps.maxMessages)
  {
    CounterConserved(caps, c, rows);
    if rows != [] {
      ActiveRowsBounded(caps, c, rows[..|rows| - 1]);
    }
  }

  /** BYTE CAP. */
  lemma {:induction false} BytesBounded(caps: Caps, c: Cache, rows: seq<SourceRow>)
    requires caps.maxBytes > 0
    ensures var l := LoadAll(caps, c, rows);
      && (caps.size(c) < caps.maxBytes ==> caps.size(l.cache) <= caps.maxBytes)
      && (caps.size(c) >= caps.maxBytes ==> l.cache == c && l.full && l.inserted == 0)
  {
    if rows != [] {
      BytesBounded(caps, c, rows[..|rows| - 1]);
    }
  }

  /** From the first row that does not fit on, no row has any effect. */
  lemma {:induction false} NothingAfterOverflow(caps: Caps, c: Cache, rows: seq<SourceRow>, i: nat)
    requires i < |rows| && Overflows(caps, LoadAll(caps, c, rows[..i]), rows[i])
    ensures LoadAll(caps, c, rows).cache == LoadAll(caps, c, rows[..i]).cache
    ensures LoadAll(caps, c, rows).inserted == LoadAll(caps, c, rows[..i]).inserted
    ensures LoadAll(caps, c, rows).full
    ensures LoadAll(caps, c, rows).skippedMedia == MediaPaths(rows) - MediaPaths(rows[..i])
    decreases |rows|
  {
    var before := rows[..|rows| - 1];
    if i < |before| {
      assert before[..i] == rows[..i];
      NothingAfterOverflow(caps, c, before, i);
    } else {
      assert before == rows[..i];
    }
  }

  /** The row as a change of the cache, under the given chat unless it names one. */
  function ChangeOf(chat: int, row: SourceRow): Change {
    BackfillRow(MessageKey(if row.chat != 0 then row.chat else chat, row.id), row.content, row.disposition)
  }

  function ChangesOf(chat: int, rows: seq<SourceRow>): seq<Change> {
    seq(|rows|, i requires 0 <= i < |rows| => ChangeOf(chat, rows[i]))
  }

  /** There is room for as many rows, and the rows applied in order never exceed
      the byte cap. */
  ghost predicate AllFit(caps: Caps, c: Cache, rows: seq<SourceRow>) {
    && Active(c, caps.chat) + |rows| <= caps.maxMessages
    && (caps.maxBytes > 0 ==>
          && caps.size(c) < caps.maxBytes
          && forall i | 0 < i <= |rows| :: caps.size(ApplyAll(c, ChangesOf(caps.chat, rows[..i]))) <= caps.maxBytes)
  }

  lemma FewerFit(caps: Caps, c: Cache, rows: seq<SourceRow>)
    requires AllFit(caps, c, rows) && rows != []
    ensures AllFit(caps, c, rows[..|rows| - 1])
  {
    var before := rows[..|rows| - 1];
    forall i | 0 < i <= |before| && caps.maxBytes > 0
      ensures caps.size(ApplyAll(c, ChangesOf(caps.chat, before[..i]))) <= caps.maxBytes
    {
      assert before[..i] == rows[..i];
    }
  }

  /** EVERY ROW THAT FITS IS STORED. */
  lemma {:induction false} FittingRowsAllTaken(caps: Caps, c: Cache, rows: seq<SourceRow>)
    requires AllFit(caps, c, rows)
    ensures var l := LoadAll(caps, c, rows);
      && l.cache == ApplyAll(c, ChangesOf(caps.chat, rows))
      && l.inserted == |rows| && !l.full && l.skippedMedia == 0 && l.current <= Active(c, caps.chat) + |rows|
  {
    if rows != [] {
      var before := rows[..|rows| - 1];
      FewerFit(caps, c, rows);
      FittingRowsAllTaken(caps, c, before);
      assert ChangesOf(caps.chat, rows)[..|before|] == ChangesOf(caps.chat, before);
      assert rows[..|rows|] == rows;
    }
  }

  /** Without a byte cap there is nothing to fit. */
  lemma UncappedTakesAll(caps: Caps, c: Cache, rows: seq<SourceRow>)
    requires caps.maxBytes <= 0 && Active(c, caps.chat) + |rows| <= caps.maxMessages
    ensures var l := LoadAll(caps, c, rows);
      && l.cache == ApplyAll(c, ChangesOf(caps.chat, rows))
      && l.inserted == |rows| && !l.full && l.skippedMedia == 0
  {
    FittingRowsAllTaken(caps, c, rows);
  }

  /** A row that the row cap leaves out: as many rows are in, and it is not one of
      the active ones. */
  predicate NoRoom(caps: Caps, l: Load, row: SourceRow) {
    var k := ChangeOf(caps.chat, row).key;
    l.current >= caps.maxMessages && !(k in l.cache.messages && !l.cache.messages[k].deleted)
  }

  /** The row would make the database too large. */
  predicate TooLarge(caps: Caps, l: Load, row: SourceRow) {
    caps.maxBytes > 0 && caps.size(Apply(l.cache, ChangeOf(caps.chat, row))) > caps.maxBytes
  }

  /** What becomes of each row, in terms of the two caps alone. */
  lemma FateOfRow(caps: Caps, c: Cache, rows: seq<SourceRow>, i: nat)
    requires i < |rows|
    ensures var l, l' := LoadAll(caps, c, rows[..i]), LoadAll(caps, c, rows[..i + 1]);
      && (!l.full && !NoRoom(caps, l, rows[i]) && !TooLarge(caps, l, rows[i]) ==>
            && l'.cache == Apply(l.cache, ChangeOf(caps.chat, rows[i]))
            && l'.inserted == l.inserted + 1 && !l'.full && l'.skippedMedia == l.skippedMedia)
      && (l.full || NoRoom(caps, l, rows[i]) || TooLarge(caps, l, rows[i]) ==>
            l'.cache == l.cache && l'.inserted == l.inserted && l'.current == l.current)
      && (l'.full <==> l.full || (!NoRoom(caps, l, rows[i]) && TooLarge(caps, l, rows[i])))
  {
    assert rows[..i + 1][..i] == rows[..i];
  }

  lemma FullByLast(caps: Caps, c: Cache, rows: seq<SourceRow>)
    requires rows != []
    ensures var last := |rows| - 1;
      LoadAll(caps, c, rows).full <==> LoadAll(caps, c, rows[..last]).full || TriedTooLarge(caps, c, rows, last)
  {
    var last := |rows| - 1;
    FateOfRow(caps, c, rows, last);
    assert rows[..last + 1] == rows;
  }

  lemma TriedEarlier(caps: Caps, c: Cache, rows: seq<SourceRow>, n: nat, i: nat)
    requires i < n <= |rows|
    ensures TriedTooLarge(caps, c, rows, i) <==> TriedTooLarge(caps, c, rows[..n], i)
  {
    assert rows[..n][..i] == rows[..i];
  }

  /** FULL EXACTLY if the database started at the byte cap, or some row that was
      still tried would have made it too large. */
  lemma {:induction false} FullExactly(caps: Caps, c: Cache, rows: seq<SourceRow>)
    ensures LoadAll(caps, c, rows).full <==>
      || (caps.maxBytes > 0 && caps.size(c) >= caps.maxBytes)
      || exists i :: 0 <= i < |rows| && TriedTooLarge(caps, c, rows, i)
  {
    if rows != [] {
      var last := |rows| - 1;
      FullExactly(caps, c, rows[..last]);
      FullByLast(caps, c, rows);
      forall i | 0 <= i < last
        ensures TriedTooLarge(caps, c, rows, i) <==> TriedTooLarge(caps, c, rows[..last], i)
      {
        TriedEarlier(caps, c, rows, last, i);
      }
    }
  }

  predicate TriedTooLarge(caps: Caps, c: Cache, rows: seq<SourceRow>, i: nat)
    requires i < |rows|
  {
    var l := LoadAll(caps, c, rows[..i]);
    !l.full && !NoRoom(caps, l, rows[i]) && TooLarge(caps, l, rows[i])
  }

  /** Media of rows that were not applied, whatever the reason. */
  function UnsavedMedia(caps: Caps, c: Cache, rows: seq<SourceRow>): nat {
    if rows == [] then 0
    else
      var l, row := LoadAll(caps, c, rows[..|rows| - 1]), rows[|rows| - 1];
      UnsavedMedia(caps, c, rows[..|rows| - 1])
      + if Next(caps, l, row).inserted == l.inserted && HasMediaPath(row) then 1 else 0
  }

  /** Media the row cap had skipped when a row overflowed, and which the
      assignment at that point forgets. */
  function ForgottenMedia(caps: Caps, c: Cache, rows: seq<SourceRow>): nat {
    if rows == [] then 0
    else
      var l, row := LoadAll(caps, c, rows[..|rows| - 1]), rows[|rows| - 1];
      if Overflows(caps, l, row) then l.skippedMedia else ForgottenMedia(caps, c, rows[..|rows| - 1])
  }

  /** The reported count is exact if and only if nothing was forgotten. */
  lemma {:induction false} SkippedMediaExactly(caps: Caps, c: Cache, rows: seq<SourceRow>)
    ensures LoadAll(caps, c, rows).skippedMedia + ForgottenMedia(caps, c, rows) == UnsavedMedia(caps, c, rows)
    ensures !LoadAll(caps, c, rows).full ==> ForgottenMedia(caps, c, rows) == 0
  {
    if rows != [] {
      SkippedMediaExactly(caps, c, rows[..|rows| - 1]);
    }
  }

  /** One media row refused by the row cap, then an update that overflows: the
      report says one skipped file where two rows were not stored. */
  lemma SkippedMediaUndercounts()
    ensures exists caps, c, rows :: LoadAll(caps, c, rows).skippedMedia < UnsavedMedia(caps, c, rows)
  {
    var first := MessageKey(1, 1);
    var size := (c: Cache) => if first in c.messages && c.messages[first].content.text == Some("long") then 9 else 1;
    var caps := Caps(1, 1, 5, size);
    var media := NO_CONTENT.(mediaPath := Some("f"));
    var c := EMPTY_CACHE.(messages := map[first := Row(NO_CONTENT, false)]);
    var extra := SourceRow(1, 2, media, NoDisposition);
    var edit := SourceRow(1, 1, media.(text := Some("long"), editDate := 1), DownloadedNow);
    assert ActiveKeys(c, 1) == {first};
    var start, refused := Start(caps, c), Load(c, 1, 0, false, 1);
    assert start == Load(c, 1, 0, false, 0);
    assert !IsSpace('f') && extra.content.mediaPath.value[0] == 'f' && edit.content.mediaPath.value[0] == 'f';
    assert HasMediaPath(extra) && HasMediaPath(edit);
    assert OverCount(caps, start, extra) && Next(caps, start, extra) == refused;
    assert Overflows(caps, refused, edit);
    LastTwo(caps, c, extra, edit, start, refused);
  }

  lemma LastTwo(caps: Caps, c: Cache, one: SourceRow, two: SourceRow, start: Load, middle: Load)
    requires start == Start(caps, c) && Next(caps, start, one) == middle && Overflows(caps, middle, two)
    requires start.skippedMedia == 0 && middle.inserted == start.inserted && HasMediaPath(one) && HasMediaPath(two)
    ensures LoadAll(caps, c, [one, two]).skippedMedia < UnsavedMedia(caps, c, [one, two])
  {
    assert [one, two][..1] == [one] && [one][..0] == [];
    assert LoadAll(caps, c, [one]) == middle;
    assert UnsavedMedia(caps, c, [one]) == 1;
  }

  /** A tombstone is charged to the row cap: a new message can be refused while
      the chat has fewer active rows than allowed. */
  lemma TombstonesUseUpTheCap()
    ensures
      var caps := Caps(1, 1, 0, _ => 0);
      var c := EMPTY_CACHE.(messages := map[MessageKey(1, 1) := Row(NO_CONTENT, true)]);
      var rows := [SourceRow(1, 1, NO_CONTENT, NoDisposition), SourceRow(1, 2, NO_CONTENT, NoDisposition)];
      && LoadAll(caps, c, rows).cache == c
      && Active(c, 1) == 0 < caps.maxMessages
  {
    var caps := Caps(1, 1, 0, _ => 0);
    var c := EMPTY_CACHE.(messages := map[MessageKey(1, 1) := Row(NO_CONTENT, true)]);
    var one, two := SourceRow(1, 1, NO_CONTENT, NoDisposition), SourceRow(1, 2, NO_CONTENT, NoDisposition);
    assert ActiveKeys(c, 1) == {};
    assert [one, two][..1] == [one] && [one][..0] == [];
    assert LoadAll(caps, c, [one]) == Next(caps, Start(caps, c), one);
    assert c.messages[MessageKey(1, 1) := Row(NO_CONTENT, true)] == c.messages;
  }

  /** The row cap refuses a row while the chat has room exactly when absorbed rows
      make up the difference. */
  lemma RefusedWithRoomExactly(caps: Caps, c: Cache, rows: seq<SourceRow>, row: SourceRow)
    ensures var l := LoadAll(caps, c, rows);
      OverCount(caps, l, row) && Active(l.cache, caps.chat) < caps.maxMessages
      <==> && !IsActive(l.cache, Target(caps, row))
           && Active(l.cache, caps.chat) < caps.maxMessages <= Active(l.cache, caps.chat) + Absorbed(caps, c, rows)
  {
    CounterConserved(caps, c, rows);
  }

  /** No tombstone lies or waits at the key. */
  predicate Clear(c: Cache, k: MessageKey) {
    && (k in c.messages ==> !c.messages[k].deleted)
    && (SharesMessageIds(k.chat) ==> k.id !in c.common)
  }

  lemma {:induction false} ClearStays(caps: Caps, c: Cache, rows: seq<SourceRow>, k: MessageKey)
    requires Clear(c, k)
    ensures Clear(LoadAll(caps, c, rows).cache, k)
  {
    if rows != [] {
      ClearStays(caps, c, rows[..|rows| - 1], k);
    }
  }

  /** Rows of this chat that meet no tombstone are never absorbed, so then the cap
      counts exactly the active rows. */
  lemma {:induction false} NothingAbsorbed(caps: Caps, c: Cache, rows: seq<SourceRow>)
    requires forall row | row in rows :: (row.chat == 0 || row.chat == caps.chat) && Clear(c, Target(caps, row))
    ensures Absorbed(caps, c, rows) == 0
    ensures LoadAll(caps, c, rows).current == Active(LoadAll(caps, c, rows).cache, caps.chat)
  {
    CounterConserved(caps, c, rows);
    if rows != [] {
      var before, row := rows[..|rows| - 1], rows[|rows| - 1];
      NothingAbsorbed(caps, c, before);
      ClearStays(caps, c, before, Target(caps, row));
      assert row in rows;
    }
  }

  datatype Failure = NotCommitted | CommittedWrite

  datatype Report = Report(inserted: nat, capReached: bool, finalSize: nat, finalCount: nat, skippedMedia: nat)

  const NO_REPORT := Report(0, false, 0, 0, 0)

  /** The dedicated connection. A failing statement has no effect, and closing
      drops an open transaction. */
  class Connection {
    const reliable: bool        // no statement fails
    var durable: Cache
    var pending: Option<Cache>  // the open transaction's table
    var exclusive: bool         // PRAGMA locking_mode=EXCLUSIVE
    var deleteJournal: bool     // PRAGMA journal_mode=DELETE
    ghost var commits: nat

    constructor (c: Cache, reliable: bool)
      ensures durable == c && commits == 0 && Idle() && this.reliable == reliable
    {
      this.reliable := reliable;
      durable, pending, exclusive, deleteJournal, commits := c, None, false, false, 0;
    }

    predicate Idle()
      reads this
    {
      pending.None? && !exclusive && !deleteJournal
    }

    method Begin() returns (ok: bool)
      requires pending.None?
      modifies this`pending
      ensures pending == if ok then Some(durable) else None
      ensures reliable ==> ok
    {
      var fails: bool := *;
      ok := reliable || !fails;
      if ok {
        pending := Some(durable);
      }
    }

    method Rollback() returns (ok: bool)
      modifies this`pending
      ensures ok ==> pending.None?
      ensures !ok ==> pending == old(pending)
      ensures reliable ==> ok
    {
      var fails: bool := *;
      ok := reliable || !fails;
      if ok {
        pending := None;
      }
    }

    method Commit() returns (ok: bool)
      requires pending.Some?
      modifies this`pending, this`durable, this`commits
      ensures ok ==> durable == old(pending).value && pending.None? && commits == old(commits) + 1
      ensures !ok ==> durable == old(durable) && pending == old(pending) && commits == old(commits)
      ensures reliable ==> ok
    {
      var fails: bool := *;
      ok := reliable || !fails;
      if ok {
        durable, pending, commits := pending.value, None, commits + 1;
      }
    }

    /** Undoes what the byte cap switched on. */
    method Restore() returns (ok: bool)
      modifies this`exclusive, this`deleteJournal
      ensures ok ==> !exclusive && !deleteJournal
      ensures reliable ==> ok
    {
      var journalFails, lockFails: bool := *, *;
      deleteJournal := deleteJournal && journalFails && !reliable;
      exclusive := exclusive && lockFails && !reliable;
      ok := !deleteJournal && !exclusive;
    }

    /** Rolls back and restores as far as that succeeds. */
    method FailBeforeCommit()
      modifies this`pending, this`exclusive, this`deleteJournal
    {
      var rolledBack := Rollback();
      var restored := Restore();
    }

    /** The exclusive lock and the rollback journal, before any row. */
    method Prepare() returns (ok: bool)
      requires Idle()
      modifies this`pending, this`exclusive, this`deleteJournal
      ensures ok ==> pending.None? && exclusive && deleteJournal
      ensures reliable ==> ok
    {
      var refused: bool := *;
      if refused && !reliable {
        return false;
      }
      exclusive := true;
      ok := Begin();
      if !ok {
        FailBeforeCommit();
        return;
      }
      var unreadable: bool := *;
      if unreadable && !reliable {
        FailBeforeCommit();
        return false;
      }
      ok := Rollback();
      if !ok {
        FailBeforeCommit();
        return;
      }
      var busy: bool := *;
      if busy && !reliable {
        FailBeforeCommit();
        return false;
      }
      deleteJournal := true;
    }

    /** One row between its savepoint and the release. Failing leaves the
        transaction to be rolled back as a whole. */
    method TryRow(caps: Caps, l: Load, row: SourceRow) returns (next: Load, ok: bool)
      requires pending == Some(l.cache) && !l.full
      modifies this`pending
      ensures ok ==> next == Next(caps, l, row) && pending == Some(next.cache)
      ensures ok && !NoRoom(caps, l, row) && !TooLarge(caps, l, row) ==>
        next.cache == Apply(l.cache, ChangeOf(caps.chat, row)) && next.inserted == l.inserted + 1 && !next.full
      ensures ok && (NoRoom(caps, l, row) || TooLarge(caps, l, row)) ==> next.cache == l.cache && next.inserted == l.inserted
      ensures reliable ==> ok
    {
      next := l;
      var broken: bool := *;
      if broken && !reliable {
        return next, false;
      }
      var alreadyActive := IsActive(l.cache, Target(caps, row));
      if l.current >= caps.maxMessages && !alreadyActive {
        return l.(skippedMedia := l.skippedMedia + if HasMediaPath(row) then 1 else 0), true;
      }
      var savepoint := pending;
      broken := *;
      if broken && !reliable {
        return next, false;
      }
      pending := Some(UpsertBackfill(l.cache, Target(caps, row), row.content, row.disposition));
      if caps.maxBytes > 0 {
        broken := *;
        if broken && !reliable {
          return next, false;
        }
        if caps.size(pending.value) > caps.maxBytes {
          broken := *;
          if broken && !reliable {
            return next, false;
          }
          pending := savepoint;
          return l.(full := true, skippedMedia := if HasMediaPath(row) then 1 else 0), true;
        }
      }
      broken := *;
      if broken && !reliable {
        return next, false;
      }
      next := Load(pending.value, l.current + (if alreadyActive then 0 else 1), l.inserted + 1, false, l.skippedMedia);
      return next, true;
    }

    /** The loop, which stops at the first overflow and counts the rest. */
    method LoadRows(caps: Caps, rows: seq<SourceRow>) returns (l: Load, ok: bool)
      requires pending.Some?
      // only a byte cap needs the lock and the rollback journal
      requires if caps.maxBytes > 0 then exclusive && deleteJournal else !exclusive && !deleteJournal
      modifies this`pending
      ensures ok ==> l == LoadAll(caps, old(pending).value, rows) && pending == Some(l.cache)
      ensures reliable ==> ok
    {
      ghost var c := pending.value;
      l := Start(caps, pending.value);
      var i := 0;
      while i < |rows| && !l.full
        invariant 0 <= i <= |rows| && pending == Some(l.cache)
        invariant l == LoadAll(caps, c, rows[..i])
      {
        assert rows[..i + 1][..i] == rows[..i];
        l, ok := TryRow(caps, l, rows[i]);
        if !ok {
          return;
        }
        i := i + 1;
      }
      if l.full {
        FullRest(caps, c, rows, i);
        l := l.(skippedMedia := l.skippedMedia + MediaPaths(rows[i..]));
      }
      assert rows[..|rows|] == rows;
      return l, true;
    }

    /** Durable all at once or not at all, and the kind of error says which. */
    method InsertRows(caps: Caps, rows: seq<SourceRow>) returns (report: Report, err: Option<Failure>)
      requires Idle()
      modifies this
      ensures pending.None?
      ensures
        || (durable == old(durable) && commits == old(commits))
        || (durable == LoadAll(caps, old(durable), rows).cache && commits == old(commits) + 1)
      ensures commits == old(commits) <==> err == Some(NotCommitted)
      ensures reliable ==> err.None?
      // nothing failing, rows that all fit are all stored
      ensures reliable && AllFit(caps, old(durable), rows) ==>
        durable == ApplyAll(old(durable), ChangesOf(caps.chat, rows)) && report.inserted == |rows|
      ensures var l := LoadAll(caps, old(durable), rows);
        commits != old(commits) ==>
          && report.inserted == l.inserted && report.skippedMedia == l.skippedMedia
          && report.finalCount == Active(durable, caps.chat)
      ensures err.None? ==>
        && Idle() && report.finalSize == caps.size(durable)
        && report.capReached == (LoadAll(caps, old(durable), rows).full
             || (caps.maxBytes > 0 && caps.size(durable) >= caps.maxBytes))
    {
      if AllFit(caps, durable, rows) {
        FittingRowsAllTaken(caps, durable, rows);
      }
      report, err := InsertOpen(caps, rows);
      var closeFails: bool := *;
      pending := None;
      if closeFails && !reliable && err != Some(NotCommitted) {
        err := Some(CommittedWrite);
      }
    }

    method InsertOpen(caps: Caps, rows: seq<SourceRow>) returns (report: Report, err: Option<Failure>)
      requires Idle()
      modifies this
      ensures reliable ==> err.None?
      ensures err == Some(NotCommitted) ==> durable == old(durable) && commits == old(commits)
      ensures err != Some(NotCommitted) ==>
        && pending.None? && commits == old(commits) + 1
        && var l := LoadAll(caps, old(durable), rows);
           && durable == l.cache
           && report.inserted == l.inserted && report.skippedMedia == l.skippedMedia
           && report.finalCount == Active(durable, caps.chat)
      ensures err.None? ==>
        && Idle() && report.finalSize == caps.size(durable)
        && report.capReached == (LoadAll(caps, old(durable), rows).full
             || (caps.maxBytes > 0 && caps.size(durable) >= caps.maxBytes))
    {
      if caps.maxBytes > 0 {
        var prepared := Prepare();
        if !prepared {
          return NO_REPORT, Some(NotCommitted);
        }
      }
      var begun := Begin();
      if !begun {
        FailBeforeCommit();
        return NO_REPORT, Some(NotCommitted);
      }
      var uncounted: bool := *;
      if uncounted && !reliable {
        FailBeforeCommit();
        return NO_REPORT, Some(NotCommitted);
      }
      var l, loaded := LoadRows(caps, rows);
      report := Report(l.inserted, l.full, 0, 0, l.skippedMedia);
      uncounted := *;
      if !loaded || (uncounted && !reliable) {
        FailBeforeCommit();
        return report, Some(NotCommitted);
      }
      report := report.(finalCount := Active(pending.value, caps.chat));
      var committed := Commit();
      if !committed {
        FailBeforeCommit();
        return report, Some(NotCommitted);
      }
      var restored := Restore();
      var unsized: bool := *;
      if !restored || (unsized && !reliable) {
        return report, Some(CommittedWrite);
      }
      report := report.(finalSize := caps.size(durable));
      report := report.(capReached := report.capReached || (caps.maxBytes > 0 && report.finalSize >= caps.maxBytes));
      return report, None;
    }
  }

  /** Leaving the loop early and counting the rest is the same as going on. */
  lemma {:induction false} FullRest(caps: Caps, c: Cache, rows: seq<SourceRow>, i: nat)
    requires i <= |rows| && LoadAll(caps, c, rows[..i]).full
    ensures var l := LoadAll(caps, c, rows[..i]);
      LoadAll(caps, c, rows) == l.(skippedMedia := l.skippedMedia + MediaPaths(rows[i..]))
    decreases |rows|
  {
    if i == |rows| {
      assert rows[..i] == rows;
    } else {
      var before := rows[..|rows| - 1];
      assert before[..i] == rows[..i] && rows[i..][..|rows| - 1 - i] == before[i..];
      FullRest(caps, c, before, i);
    }
  }
}
