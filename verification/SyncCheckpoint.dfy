/** The catch-up transaction of sync: rows and checkpoint move together, and the
    checkpoint never moves over a gap. */
module SyncCheckpoint {
  import opened Wrappers
  import opened MessageCache
  import opened HistoryPaging

  /** The server's list when asked with a minimum id. */
  function Above(history: seq<Item>, after: int): seq<Item> {
    if history == [] || history[0].id <= after then [] else [history[0]] + Above(history[1..], after)
  }

  lemma {:induction false} AboveIsExact(history: seq<Item>, after: int, x: Item)
    requires Descending(history)
    ensures Above(history, after) <= history
    ensures x in Above(history, after) <==> x in history && x.id > after
  {
    if history != [] {
      assert x in history <==> x == history[0] || x in history[1..];
      if history[0].id > after {
        AboveIsExact(history[1..], after, x);
        assert history == [history[0]] + history[1..];
      } else if x in history {
        var j :| 0 <= j < |history| && history[j] == x;
        assert x.id <= history[0].id;
      }
    }
  }

  lemma AboveIsDescending(history: seq<Item>, after: int)
    requires Descending(history)
    ensures Descending(Above(history, after))
  {
    AboveIsExact(history, after, Item(0, Service, NO_CONTENT));
  }

  function RowsOf(chat: int, messages: seq<Item>): seq<Change> {
    seq(|messages|, i requires 0 <= i < |messages| => SyncRow(MessageKey(chat, messages[i].id), messages[i].content))
  }

  function Highest(messages: seq<Item>): int {
    if messages == [] then 0 else Max(Highest(messages[..|messages| - 1]), messages[|messages| - 1].id)
  }

  /** The cache has the message deleted or in a version at least as new. */
  predicate Holds(c: Cache, chat: int, x: Item) {
    var k := MessageKey(chat, x.id);
    k in c.messages && (c.messages[k].deleted || Newer(c.messages[k].content, x.content))
  }

  ghost predicate Covered(c: Cache, chat: int, history: seq<Item>, after: int, upTo: int) {
    forall x | x in history && x.kind.Ordinary? && after < x.id <= upTo :: Holds(c, chat, x)
  }

  lemma UpsertHolds(c: Cache, chat: int, m: Item, x: Item)
    requires m == x || Holds(c, chat, x)
    ensures Holds(Apply(c, SyncRow(MessageKey(chat, m.id), m.content)), chat, x)
  {
    var k := MessageKey(chat, x.id);
    RowAfter(c, SyncRow(MessageKey(chat, m.id), m.content), k);
    NewerIsTotal(x.content, x.content);
    if k in c.messages && m.id == x.id {
      var cur := c.messages[k].content;
      NewerIsTotal(m.content, cur);
      if !c.messages[k].deleted && m != x && Newer(m.content, cur) {
        NewerIsTransitive(m.content, cur, x.content);
      }
    }
  }

  lemma {:induction false} RowsHold(c: Cache, chat: int, messages: seq<Item>, x: Item)
    requires x in messages || Holds(c, chat, x)
    ensures Holds(ApplyAll(c, RowsOf(chat, messages)), chat, x)
  {
    if messages != [] {
      var before, last := messages[..|messages| - 1], messages[|messages| - 1];
      assert RowsOf(chat, messages)[..|before|] == RowsOf(chat, before);
      if x in before || Holds(c, chat, x) {
        RowsHold(c, chat, before, x);
      }
      UpsertHolds(ApplyAll(c, RowsOf(chat, before)), chat, last, x);
    }
  }

  lemma {:induction false} OnlyRowsAppear(c: Cache, chat: int, messages: seq<Item>, k: MessageKey)
    ensures k in ApplyAll(c, RowsOf(chat, messages)).messages <==>
            k in c.messages || exists m :: m in messages && k == MessageKey(chat, m.id)
  {
    if messages != [] {
      var before, last := messages[..|messages| - 1], messages[|messages| - 1];
      assert RowsOf(chat, messages)[..|before|] == RowsOf(chat, before);
      OnlyRowsAppear(c, chat, before, k);
      RowAfter(ApplyAll(c, RowsOf(chat, before)), SyncRow(MessageKey(chat, last.id), last.content), k);
      assert forall m :: m in messages <==> m in before || m == last;
    }
  }

  lemma {:induction false} HighestIsUpper(messages: seq<Item>, x: Item)
    requires x in messages
    ensures x.id <= Highest(messages)
  {
    if x in messages[..|messages| - 1] {
      HighestIsUpper(messages[..|messages| - 1], x);
    }
  }

  lemma {:induction false} HighestIsReached(messages: seq<Item>)
    requires Highest(messages) != 0
    ensures exists m :: m in messages && m.id == Highest(messages)
  {
    var before, last := messages[..|messages| - 1], messages[|messages| - 1];
    if Highest(messages) == Highest(before) {
      HighestIsReached(before);
      var m :| m in before && m.id == Highest(before);
      assert m in messages;
    } else {
      assert last in messages;
    }
  }

  /** NO GAP. Storing every wanted message above the checkpoint extends what was
      covered up to it to the new checkpoint. */
  lemma AllRowsCover(c: Cache, chat: int, history: seq<Item>, after: int, checkpoint: int, upTo: int)
    requires Descending(history) && Covered(c, chat, history, after, checkpoint)
    ensures Covered(ApplyAll(c, RowsOf(chat, Wanted(Above(history, checkpoint)))), chat, history, after, upTo)
  {
    var rows := Wanted(Above(history, checkpoint));
    forall x | x in history && x.kind.Ordinary? && after < x.id <= upTo
      ensures Holds(ApplyAll(c, RowsOf(chat, rows)), chat, x)
    {
      AboveIsExact(history, checkpoint, x);
      WantedAreOrdinary(Above(history, checkpoint), x);
      RowsHold(c, chat, rows, x);
    }
  }

  lemma MoreRowsKeepCover(c: Cache, chat: int, history: seq<Item>, after: int, upTo: int, rows: seq<Item>)
    requires Covered(c, chat, history, after, upTo)
    ensures Covered(ApplyAll(c, RowsOf(chat, rows)), chat, history, after, upTo)
  {
    forall x | x in history && x.kind.Ordinary? && after < x.id <= upTo
      ensures Holds(ApplyAll(c, RowsOf(chat, rows)), chat, x)
    {
      RowsHold(c, chat, rows, x);
    }
  }

  lemma {:induction false} WantedAreDescending(list: seq<Item>)
    requires Descending(list)
    ensures Descending(Wanted(list))
  {
    if list != [] {
      var before, last := list[..|list| - 1], list[|list| - 1];
      WantedAreDescending(before);
      var kept := Wanted(before);
      forall i | 0 <= i < |kept| ensures kept[i].id > last.id {
        WantedAreOrdinary(before, kept[i]);
        var j :| 0 <= j < |before| && before[j] == kept[i];
        assert list[j].id > list[|before|].id;
      }
    }
  }

  /** Rows of other messages stay as they are. */
  lemma {:induction false} OthersUntouched(c: Cache, chat: int, messages: seq<Item>, k: MessageKey)
    requires forall m | m in messages :: k != MessageKey(chat, m.id)
    ensures var c' := ApplyAll(c, RowsOf(chat, messages));
      (k in c'.messages <==> k in c.messages) && (k in c.messages ==> c'.messages[k] == c.messages[k])
  {
    if messages != [] {
      var before, last := messages[..|messages| - 1], messages[|messages| - 1];
      assert RowsOf(chat, messages)[..|before|] == RowsOf(chat, before);
      OthersUntouched(c, chat, before, k);
      assert last in messages;
      RowAfter(ApplyAll(c, RowsOf(chat, before)), SyncRow(MessageKey(chat, last.id), last.content), k);
    }
  }

  /** What was fetched is held, and of the rest exactly what was held before. */
  lemma HeldAfterFetch(c: Cache, chat: int, list: seq<Item>, n: nat, j: nat)
    requires Descending(list) && n <= |list| && j < |list|
    ensures Holds(ApplyAll(c, RowsOf(chat, list[..n])), chat, list[j]) <==> j < n || Holds(c, chat, list[j])
  {
    var rows := list[..n];
    if j < n {
      assert rows[j] == list[j];
      RowsHold(c, chat, rows, list[j]);
    } else {
      forall m | m in rows ensures MessageKey(chat, list[j].id) != MessageKey(chat, m.id) {
        var i :| 0 <= i < |rows| && rows[i] == m;
        assert list[i].id > list[j].id;
      }
      OthersUntouched(c, chat, rows, MessageKey(chat, list[j].id));
    }
  }

  /** A first sync, which has no checkpoint yet, covers the ids up to the
      checkpoint it stores exactly when every message beyond its limit was already
      in the cache or tombstoned, whatever the cache held. */
  lemma FirstSyncCovers(c: Cache, chat: int, history: seq<Item>, limit: nat)
    requires Descending(history) && limit >= 1
    ensures
      var all := Wanted(Above(history, 0));
      var rows := Take(all, limit);
      Covered(ApplyAll(c, RowsOf(chat, rows)), chat, history, 0, Highest(rows))
      <==> forall j | limit <= j < |all| :: Holds(c, chat, all[j])
  {
    var all := Wanted(Above(history, 0));
    var n := if |all| <= limit then |all| else limit;
    var rows := Take(all, limit);
    var c' := ApplyAll(c, RowsOf(chat, rows));
    assert rows == all[..n];
    AboveIsDescending(history, 0);
    WantedAreDescending(Above(history, 0));
    if Covered(c', chat, history, 0, Highest(rows)) {
      forall j | limit <= j < |all| ensures Holds(c, chat, all[j]) {
        IsWanted(history, all[j]);
        HighestIsUpper(rows, rows[0]);
        assert all[0].id > all[j].id && all[0] == rows[0];
        HeldAfterFetch(c, chat, all, n, j);
      }
    }
    if forall j | limit <= j < |all| :: Holds(c, chat, all[j]) {
      forall x | x in history && x.kind.Ordinary? && 0 < x.id <= Highest(rows) ensures Holds(c', chat, x) {
        IsWanted(history, x);
        var j :| 0 <= j < |all| && all[j] == x;
        HeldAfterFetch(c, chat, all, n, j);
      }
    }
  }

  lemma IsWanted(history: seq<Item>, x: Item)
    requires Descending(history)
    ensures x in Wanted(Above(history, 0)) <==> x in history && x.kind.Ordinary?
  {
    AboveIsExact(history, 0, x);
    WantedAreOrdinary(Above(history, 0), x);
    if x in history {
      var i :| 0 <= i < |history| && history[i] == x;
      assert history[i].id > 0;
    }
  }

  /** From an empty cache that means that the whole history fitted the limit. */
  lemma FirstSyncFromEmpty(chat: int, history: seq<Item>, limit: nat)
    requires Descending(history) && limit >= 1
    ensures
      var rows := Take(Wanted(Above(history, 0)), limit);
      Covered(ApplyAll(EMPTY_CACHE, RowsOf(chat, rows)), chat, history, 0, Highest(rows))
      <==> |Wanted(Above(history, 0))| <= limit
  {
    FirstSyncCovers(EMPTY_CACHE, chat, history, limit);
    var all := Wanted(Above(history, 0));
    assert |all| > limit ==> !Holds(EMPTY_CACHE, chat, all[limit]);
  }

  /** The two lemmas above, for whatever was fetched. */
  lemma CoverageKept(c: Cache, chat: int, history: seq<Item>, after: int, checkpoint: int, rows: seq<Item>)
    requires Descending(history)
    ensures Covered(c, chat, history, after, checkpoint) ==>
              Covered(ApplyAll(c, RowsOf(chat, rows)), chat, history, after, checkpoint)
    ensures Covered(c, chat, history, after, checkpoint) && rows == Wanted(Above(history, checkpoint)) ==>
              Covered(ApplyAll(c, RowsOf(chat, rows)), chat, history, after, Max(checkpoint, Highest(rows)))
  {
    if Covered(c, chat, history, after, checkpoint) {
      MoreRowsKeepCover(c, chat, history, after, checkpoint, rows);
      if rows == Wanted(Above(history, checkpoint)) {
        AllRowsCover(c, chat, history, after, checkpoint, Max(checkpoint, Highest(rows)));
      }
    }
  }

  class Syncer {
    const chat: int
    const reliable: bool  // neither Telegram nor the database fails
    var cache: Cache
    var checkpoint: int  // 0 when none is stored yet

    constructor (chat: int, cache: Cache, checkpoint: int, reliable: bool)
      ensures this.chat == chat && this.cache == cache && this.checkpoint == checkpoint && this.reliable == reliable
    {
      this.chat, this.cache, this.checkpoint, this.reliable := chat, cache, checkpoint, reliable;
    }

    /** The rows go to a transaction that starts on the given cache. */
    method PersistRows(start: Cache, messages: seq<Item>)
      returns (c: Cache, persisted: nat, highest: int, failed: bool)
      ensures !failed ==> c == ApplyAll(start, RowsOf(chat, messages))
      ensures !failed ==> persisted == |messages| && highest == Highest(messages)
      ensures reliable ==> !failed
    {
      c, persisted, highest, failed := start, 0, 0, false;
      for i := 0 to |messages|
        invariant c == ApplyAll(start, RowsOf(chat, messages[..i]))
        invariant persisted == i && highest == Highest(messages[..i]) && !failed
      {
        var broken: bool := *;
        if broken && !reliable {
          failed := true;
          return;
        }
        assert messages[..i + 1][..i] == messages[..i];
        assert RowsOf(chat, messages[..i + 1])[..i] == RowsOf(chat, messages[..i]);
        c := UpsertLive(c, MessageKey(chat, messages[i].id), messages[i].content);
        persisted := persisted + 1;
        if messages[i].id > highest {
          highest := messages[i].id;
        }
      }
      assert messages[..|messages|] == messages;
    }

    /** The initial reconciliation. Whatever fails, even a commit whose effect is
        hidden behind an error, everything covered from some id on stays covered
        from there up to the stored checkpoint. */
    method CatchUp(history: seq<Item>, limit: int, exact: bool, ghost after: int) returns (ok: bool, r: BackfillResult)
      requires Descending(history) && 1 <= limit <= MAX_BACKFILL_MESSAGES && checkpoint >= 0
      modifies this
      ensures checkpoint >= old(checkpoint)
      ensures r.error.Some? || (r.truncated && old(checkpoint) > 0) ==> !ok && checkpoint == old(checkpoint)
      ensures cache == old(cache) || cache == ApplyAll(old(cache), RowsOf(chat, r.messages))
      ensures r.messages <= Wanted(Above(history, old(checkpoint)))
      ensures checkpoint != old(checkpoint) ==>
                checkpoint == Highest(r.messages) && r.messages == Take(Wanted(Above(history, old(checkpoint))), limit)
      ensures ok ==> cache == ApplyAll(old(cache), RowsOf(chat, r.messages))
      ensures ok ==> r.messages == Take(Wanted(Above(history, old(checkpoint))), limit)
      ensures ok ==> checkpoint == Max(old(checkpoint), Highest(r.messages))
      // nothing failing, only a truncated catch-up is refused, and its rows are kept
      ensures reliable ==>
        && (ok <==> !(r.truncated && old(checkpoint) > 0))
        && cache == ApplyAll(old(cache), RowsOf(chat, r.messages))
      ensures ok && old(checkpoint) > 0 ==> !r.truncated && |Wanted(Above(history, old(checkpoint)))| <= limit
      ensures ok && old(checkpoint) == 0 && exact && r.truncated ==> |Above(history, 0)| > limit
      ensures old(Covered(cache, chat, history, after, checkpoint)) && (old(checkpoint) > 0 || !r.truncated) ==>
                Covered(cache, chat, history, after, checkpoint)
    {
      AboveIsDescending(history, checkpoint);
      r := Paginate(Above(history, checkpoint), limit, exact, reliable);
      assert r.error.Some? ==> r.error.value.BadArgs? || r.error.value.Interrupted?;
      CoverageKept(cache, chat, history, after, checkpoint, r.messages);
      var failed := r.error.Some? || (r.truncated && checkpoint > 0);
      var unopened, uncommitted, hidden: bool := *, *, *;
      if unopened && !reliable {
        return false, r;
      }
      var c, persisted, highest, broken := PersistRows(cache, r.messages);
      if broken {
        return false, r;
      }
      if failed {
        if reliable || !uncommitted || hidden {
          cache := c;
        }
        return false, r;
      }
      NotTruncatedIsAll(Above(history, checkpoint), r, limit, exact);
      if uncommitted && !hidden && !reliable {
        return false, r;
      }
      cache := c;
      if highest > checkpoint {
        checkpoint := highest;
      }
      ok := reliable || !uncommitted;
    }
  }

  lemma NotTruncatedIsAll(list: seq<Item>, r: BackfillResult, limit: nat, exact: bool)
    requires Complete(r, list, limit, exact)
    ensures !r.truncated ==> r.messages == Wanted(list) && |Wanted(list)| <= limit
    ensures exact && r.truncated ==> |list| > limit
  {
    var k :| 0 <= k <= |list| && r.messages == Wanted(list[..k]) && (!r.truncated ==> k == |list|)
      && (r.truncated ==> |r.messages| == limit) && (exact && r.truncated ==> k < |list|);
    assert list[..|list|] == list;
    WantedOfPrefix(list, k);
  }
}
