/** The backfill page loop against a server list of message ids. */
module HistoryPaging {
  import opened Wrappers
  import opened MessageCache

  const PAGE_SIZE: nat := 100

  const MAX_BACKFILL_MESSAGES: nat := 10_000

  /** Ordinary messages are cached; expiring ones only warn; service and empty
      ones only move the cursor. */
  datatype ItemKind = Ordinary | Expiring | Service

  datatype Item = Item(id: int, kind: ItemKind, content: Content)

  function Ids(items: seq<Item>): set<int> {
    if items == [] then {} else Ids(items[..|items| - 1]) + {items[|items| - 1].id}
  }

  lemma {:induction false} IdsOfItems(items: seq<Item>, id: int)
    ensures id in Ids(items) <==> exists i :: 0 <= i < |items| && items[i].id == id
  {
    if items != [] {
      var before := items[..|items| - 1];
      IdsOfItems(before, id);
      if id in Ids(before) {
        var i :| 0 <= i < |before| && before[i].id == id;
        assert items[i].id == id;
      }
    }
  }

  function Albums(items: seq<Item>): set<int> {
    set i | i in items && i.content.grouped.Some? :: i.content.grouped.value
  }

  function OfKind(items: seq<Item>, kind: ItemKind): seq<Item> {
    if items == [] then []
    else OfKind(items[..|items| - 1], kind) + if items[|items| - 1].kind == kind then [items[|items| - 1]] else []
  }

  /** The messages a backfill is asked for. */
  function Wanted(items: seq<Item>): seq<Item> {
    OfKind(items, Ordinary)
  }

  /** The items of which no earlier one carries the same id. */
  function Firsts(items: seq<Item>): seq<Item> {
    if items == [] then []
    else
      var before, last := items[..|items| - 1], items[|items| - 1];
      if last.id in Ids(before) then Firsts(before) else Firsts(before) + [last]
  }

  function Take(items: seq<Item>, n: nat): seq<Item> {
    if |items| <= n then items else items[..n]
  }

  lemma ExtendKind(items: seq<Item>, x: Item, kind: ItemKind)
    ensures OfKind(items + [x], kind) == OfKind(items, kind) + if x.kind == kind then [x] else []
  {
    assert (items + [x])[..|items|] == items;
  }

  lemma ExtendIds(items: seq<Item>, x: Item)
    ensures Ids(items + [x]) == Ids(items) + {x.id}
  {
    assert (items + [x])[..|items|] == items;
  }

  lemma ExtendFirsts(items: seq<Item>, x: Item)
    ensures Firsts(items + [x]) == if x.id in Ids(items) then Firsts(items) else Firsts(items) + [x]
  {
    assert (items + [x])[..|items|] == items;
  }

  lemma ExtendAlbums(items: seq<Item>, x: Item)
    ensures Albums(items + [x]) ==
            Albums(items) + if x.content.grouped.Some? then {x.content.grouped.value} else {}
  {
    assert x in items + [x] && forall i | i in items :: i in items + [x];
  }

  lemma {:induction false} WantedOfPrefix(items: seq<Item>, k: nat)
    requires k <= |items|
    ensures Wanted(items[..k]) <= Wanted(items)
    ensures |Wanted(items[..k])| <= k
    decreases |items|, k
  {
    if k < |items| {
      WantedOfPrefix(items[..|items| - 1], k);
      assert items[..|items| - 1][..k] == items[..k];
    } else {
      assert items[..k] == items;
      if k > 0 {
        WantedOfPrefix(items[..k - 1], k - 1);
        assert items[..k - 1][..k - 1] == items[..k - 1];
      }
    }
  }

  lemma {:induction false} WantedAreOrdinary(items: seq<Item>, x: Item)
    ensures x in Wanted(items) <==> x in items && x.kind.Ordinary?
  {
    if items != [] {
      WantedAreOrdinary(items[..|items| - 1], x);
    }
  }

  lemma {:induction false} WantedOfTwo(a: seq<Item>, b: seq<Item>)
    ensures Wanted(a + b) == Wanted(a) + Wanted(b)
  {
    if b == [] {
      assert a + b == a;
    } else {
      var rest, last := b[..|b| - 1], b[|b| - 1];
      WantedOfTwo(a, rest);
      assert a + b == (a + rest) + [last] && b == rest + [last];
      ExtendKind(a + rest, last, Ordinary);
      ExtendKind(rest, last, Ordinary);
    }
  }

  ghost predicate Distinct(items: seq<Item>) {
    forall i, j | 0 <= i < j < |items| :: items[i].id != items[j].id
  }

  lemma {:induction false} SameIds(items: seq<Item>)
    ensures Ids(Firsts(items)) == Ids(items)
  {
    if items != [] {
      var before, last := items[..|items| - 1], items[|items| - 1];
      SameIds(before);
      assert items == before + [last];
      ExtendIds(before, last);
      ExtendIds(Firsts(before), last);
    }
  }

  /** Whatever a server repeats, no message is kept twice. */
  lemma {:induction false} FirstsAreDistinct(items: seq<Item>)
    ensures Distinct(Firsts(items))
  {
    if items != [] {
      var before, last := items[..|items| - 1], items[|items| - 1];
      FirstsAreDistinct(before);
      SameIds(before);
      var kept := Firsts(before);
      if last.id !in Ids(before) {
        IdsOfItems(kept, last.id);
      }
    }
  }

  lemma {:induction false} FirstsOfDistinct(items: seq<Item>)
    requires Distinct(items)
    ensures Firsts(items) == items
  {
    if items != [] {
      var before, last := items[..|items| - 1], items[|items| - 1];
      FirstsOfDistinct(before);
      assert items == before + [last];
      IdsOfItems(before, last.id);
      assert forall i | 0 <= i < |before| :: before[i] == items[i];
    }
  }

  /** The loop's local variables. */
  datatype Progress = Progress(
    messages: seq<Item>, warnings: nat, albumsSeen: nat, albums: set<int>, seen: set<int>, itemsSeen: nat)

  const START := Progress([], 0, 0, {}, {}, 0)

  ghost predicate Tracks(p: Progress, received: seq<Item>) {
    && p.messages == Wanted(Firsts(received))
    && p.warnings == |OfKind(Firsts(received), Expiring)|
    && p.albums == Albums(p.messages)
    && p.albumsSeen == |p.albums|
    && p.seen == Ids(received)
    && p.itemsSeen == |Firsts(received)|
  }

  /** The smallest id, or 0 for no items. */
  function Least(items: seq<Item>): int {
    if items == [] then 0
    else
      var before, last := Least(items[..|items| - 1]), items[|items| - 1].id;
      if before == 0 || last < before then last else before
  }

  /** An album's id counts once. */
  function WithAlbum(p: Progress, x: Item): Progress {
    if x.content.grouped.Some? && x.content.grouped.value !in p.albums
    then p.(albums := p.albums + {x.content.grouped.value}, albumsSeen := p.albumsSeen + 1)
    else p
  }

  function Took(p: Progress, x: Item): Progress {
    if x.id in p.seen then p
    else
      var q := p.(seen := p.seen + {x.id}, itemsSeen := p.itemsSeen + 1);
      match x.kind
      case Service => q
      case Expiring => q.(warnings := q.warnings + 1)
      case Ordinary => WithAlbum(q, x).(messages := q.messages + [x])
  }

  lemma TookTracks(p: Progress, received: seq<Item>, x: Item)
    requires Tracks(p, received)
    ensures Tracks(Took(p, x), received + [x])
  {
    ExtendIds(received, x);
    ExtendFirsts(received, x);
    if x.id !in p.seen {
      ExtendKind(Firsts(received), x, Ordinary);
      ExtendKind(Firsts(received), x, Expiring);
      ExtendAlbums(p.messages, x);
    }
  }

  lemma OneMore(received: seq<Item>, page: seq<Item>, n: nat)
    requires n < |page|
    ensures received + page[..n + 1] == received + page[..n] + [page[n]]
    ensures Least(page[..n + 1]) == if Least(page[..n]) == 0 || page[n].id < Least(page[..n]) then page[n].id else Least(page[..n])
  {
    assert page[..n + 1][..n] == page[..n];
  }

  method TakeItem(x: Item, p: Progress, reliable: bool) returns (q: Progress, failed: bool)
    ensures !failed ==> q == Took(p, x)
    ensures reliable ==> !failed
    ensures failed ==> q.messages == p.messages
  {
    if x.id in p.seen {
      return p, false;
    }
    q := p.(seen := p.seen + {x.id}, itemsSeen := p.itemsSeen + 1);
    match x.kind
    case Service => return q, false;
    case Expiring => return q.(warnings := q.warnings + 1), false;
    case Ordinary =>
      var broken: bool := *;  // encoding or media error
      if broken && !reliable {
        return q, true;
      }
      if x.content.grouped.Some? && x.content.grouped.value !in q.albums {
        q := q.(albums := q.albums + {x.content.grouped.value}, albumsSeen := q.albumsSeen + 1);
      }
      return q.(messages := q.messages + [x]), false;
  }

  /** One page. What it keeps depends on no promise of the server. */
  method TakePage(page: seq<Item>, limit: nat, p: Progress, reliable: bool, ghost received: seq<Item>)
    returns (q: Progress, minId: int, failed: bool, n: nat, ghost got: seq<Item>)
    requires Tracks(p, received) && |p.messages| < limit
    ensures n <= |page| && |q.messages| <= limit
    ensures reliable ==> !failed
    ensures got == received + page[..n]
    ensures failed ==> q.messages == Wanted(Firsts(got))
    ensures !failed ==> Tracks(q, got)
    ensures !failed && n < |page| ==> |q.messages| == limit
    ensures !failed && |p.messages| + |page| <= limit ==> n == |page|
    ensures !failed ==> minId == Least(page[..n])
  {
    q, minId, failed, n, got := p, 0, false, 0, received;
    assert received + page[..0] == received;
    while n < |page| && |q.messages| < limit
      invariant n <= |page| && |q.messages| <= limit && |q.messages| <= |p.messages| + n
      invariant Tracks(q, got) && got == received + page[..n]
      invariant minId == Least(page[..n])
      decreases |page| - n
    {
      var cancelled: bool := *;
      if cancelled && !reliable {
        failed := true;
        return;
      }
      var x := page[n];
      TookTracks(q, got, x);
      OneMore(received, page, n);
      q, failed := TakeItem(x, q, reliable);
      if failed {
        return;
      }
      if minId == 0 || x.id < minId {
        minId := x.id;
      }
      n, got := n + 1, got + [x];
    }
  }

  /** A server's list: newest first. */
  ghost predicate Descending(list: seq<Item>) {
    && (forall i | 0 <= i < |list| :: list[i].id > 0)
    && (forall i, j | 0 <= i < j < |list| :: list[i].id > list[j].id)
  }

  function Older(list: seq<Item>, offset: int): seq<Item> {
    if list == [] || offset == 0 || list[0].id < offset then list else Older(list[1..], offset)
  }

  lemma {:induction false} OlderThanKth(list: seq<Item>, k: nat)
    requires Descending(list) && 0 < k <= |list|
    ensures Older(list, list[k - 1].id) == list[k..]
  {
    assert list[0].id >= list[k - 1].id;
    if k == 1 {
      assert list[1..] == [] || list[1].id < list[0].id;
    } else {
      OlderThanKth(list[1..], k - 1);
    }
  }

  datatype Page = Page(items: seq<Item>, total: Option<nat>)

  /** messages.getHistory: the next items below the offset, and a total that is
      at least the list's length unless this page ends the list. */
  predicate Answers(page: Page, list: seq<Item>, offset: int, want: nat, exact: bool) {
    && page.items == Take(Older(list, offset), want)
    && (page.total.Some? && |Older(list, offset)| > want ==> page.total.value >= |list|)
    && (exact ==> page.total.Some? && page.total.value <= |list|)
  }

  method Fetch(list: seq<Item>, offset: int, want: nat, exact: bool, reliable: bool) returns (page: Option<Page>)
    ensures reliable ==> page.Some?
    ensures page.Some? ==> Answers(page.value, list, offset, want, exact)
  {
    var broken: bool := *;
    if broken && !reliable {
      return None;
    }
    var items := Take(Older(list, offset), want);
    assert Answers(Page(items, Some(|list|)), list, offset, want, exact);
    var total :| Answers(Page(items, total), list, offset, want, exact);
    return Some(Page(items, total));
  }

  datatype Failure = BadArgs | Interrupted

  datatype BackfillResult = BackfillResult(
    messages: seq<Item>, warnings: nat, albumsSeen: nat, nextOffset: int, truncated: bool, error: Option<Failure>)

  /** What a backfill without an error is. The parameter exact below says that
      the server counts exactly, reliable that nothing fails or is cancelled. */
  ghost predicate Complete(r: BackfillResult, list: seq<Item>, limit: nat, exact: bool) {
    && r.messages == Take(Wanted(list), limit)
    && r.albumsSeen == |Albums(r.messages)|
    && exists k ::
         && 0 <= k <= |list|
         && r.messages == Wanted(list[..k]) && r.warnings == |OfKind(list[..k], Expiring)|
         && r.nextOffset == (if k == 0 then 0 else list[k - 1].id)
         && (!r.truncated ==> k == |list|)
         && (r.truncated ==> |r.messages| == limit)
         && (exact && r.truncated ==> k < |list|)
  }

  /** The loop is past exactly the first k items. */
  ghost predicate At(list: seq<Item>, k: nat, p: Progress, offset: int) {
    k <= |list| && Exact(p, list[..k]) && offset == (if k == 0 then 0 else list[k - 1].id)
  }

  /** Nothing was received twice. */
  ghost predicate Exact(p: Progress, received: seq<Item>) {
    Tracks(p, received) && Firsts(received) == received
  }

  datatype Outcome = Continue | Full | Exhausted | Stopped

  /** The first n items of a page that continues the list after its first k. */
  ghost predicate Continues(list: seq<Item>, k: nat, items: seq<Item>, n: nat)
    requires k + n <= |list| && n <= |items|
  {
    && list[..k] + items[..n] == list[..k + n] == Firsts(list[..k + n])
    && Least(items[..n]) == if n == 0 then 0 else list[k + n - 1].id
  }

  /** Taking the page that comes next keeps the loop's place. */
  method Consume(list: seq<Item>, limit: nat, reliable: bool, p: Progress, ghost k: nat, items: seq<Item>)
    returns (q: Progress, minId: int, failed: bool, ghost m: nat)
    requires k + |items| <= |list| && items != [] && |p.messages| + |items| <= limit
    requires forall n | 0 <= n <= |items| :: Continues(list, k, items, n)
    requires Tracks(p, list[..k])
    ensures k <= m <= |list| && |q.messages| <= limit
    ensures failed ==> q.messages == Wanted(list[..m]) && !reliable
    ensures !failed ==> At(list, m, q, minId) && m == k + |items|
  {
    var n;
    ghost var got;
    q, minId, failed, n, got := TakePage(items, limit, p, reliable, list[..k]);
    m := k + n;
    assert got == list[..m] == Firsts(list[..m]) by {
      assert Continues(list, k, items, n);
    }
    assert minId == (if n == 0 then 0 else list[m - 1].id) || failed by {
      assert Continues(list, k, items, n);
    }
  }

  /** One turn of the loop: the next page is taken as a whole. */
  method NextPage(list: seq<Item>, limit: nat, exact: bool, reliable: bool, p: Progress, offset: int, ghost k: nat)
    returns (q: Progress, next: int, outcome: Outcome, ghost m: nat)
    requires Descending(list) && At(list, k, p, offset) && |p.messages| < limit
    ensures k <= m <= |list|
    ensures outcome.Stopped? ==> q.messages == Wanted(list[..m]) && !reliable
    ensures !outcome.Stopped? ==> At(list, m, q, next)
    ensures outcome.Exhausted? ==> m == |list|
    ensures outcome.Continue? ==> k < m && |q.messages| < limit
    ensures outcome.Full? ==> |q.messages| == limit && (exact ==> m < |list|)
    ensures |q.messages| <= limit
  {
    q, next, m := p, offset, k;
    var want := if limit - |p.messages| > PAGE_SIZE then PAGE_SIZE else limit - |p.messages|;
    var page := Fetch(list, offset, want, exact, reliable);
    if page.None? {
      return q, next, Stopped, m;
    }
    var items := page.value.items;
    PageIsNext(list, k, offset, want, items);
    if |items| == 0 {
      return q, next, Exhausted, m;
    }
    var minId, failed;
    forall n | 0 <= n <= |items| ensures Continues(list, k, items, n) {
      PageContinues(list, k, items, n);
    }
    q, minId, failed, m := Consume(list, limit, reliable, p, k, items);
    if failed {
      return q, next, Stopped, m;
    }
    if minId == 0 || minId == offset {
      return q, next, Exhausted, m;  // the cursor did not move
    }
    next := minId;
    var more := |items| == want && !(page.value.total.Some? && q.itemsSeen >= page.value.total.value);
    outcome := if !more then Exhausted else if |q.messages| >= limit then Full else Continue;
  }

  method Paginate(list: seq<Item>, limit: int, exact: bool, reliable: bool) returns (r: BackfillResult)
    requires Descending(list)
    ensures limit > MAX_BACKFILL_MESSAGES <==> r.error == Some(BadArgs)
    ensures limit > 10_000 ==> r == BackfillResult([], 0, 0, 0, false, Some(BadArgs))
    ensures r.messages <= Wanted(list) && |r.messages| <= if limit < 0 then 0 else limit
    ensures r.error.None? && limit >= 1 ==> Complete(r, list, limit, exact)
    ensures limit <= 0 ==> r == BackfillResult([], 0, 0, 0, false, None)
    ensures r.error.Some? ==> !r.truncated
    ensures reliable ==> r.error != Some(Interrupted)
  {
    if limit > MAX_BACKFILL_MESSAGES {
      return BackfillResult([], 0, 0, 0, false, Some(BadArgs));
    }
    var p, offset, outcome := START, 0, Continue;
    ghost var k := 0;
    while |p.messages| < limit && outcome.Continue?
      invariant At(list, k, p, offset) && !outcome.Stopped?
      invariant limit <= 0 ==> p == START && outcome.Continue?
      invariant limit >= 1 ==> |p.messages| <= limit
      invariant outcome.Continue? && limit >= 1 ==> |p.messages| < limit
      invariant outcome.Exhausted? ==> k == |list|
      invariant outcome.Full? ==> |p.messages| == limit && (exact ==> k < |list|)
      decreases |list| - k, if outcome.Continue? then 1 else 0
    {
      p, offset, outcome, k := NextPage(list, limit, exact, reliable, p, offset, k);
      var cancelled: bool := *;
      if outcome.Stopped? || (outcome.Continue? && cancelled && !reliable) {
        WantedOfPrefix(list, k);
        return BackfillResult(p.messages, p.warnings, p.albumsSeen, offset, false, Some(Interrupted));
      }
    }
    r := BackfillResult(p.messages, p.warnings, p.albumsSeen, offset, outcome.Full?, None);
    WantedOfPrefix(list, k);
    assert list[..|list|] == list;
  }

  lemma PageIsNext(list: seq<Item>, k: nat, offset: int, want: nat, items: seq<Item>)
    requires Descending(list) && k <= |list|
    requires offset == if k == 0 then 0 else list[k - 1].id
    requires items == Take(Older(list, offset), want)
    ensures Older(list, offset) == list[k..]
    ensures items == list[k..k + |items|] && (|items| < want ==> k + |items| == |list|)
  {
    if k > 0 {
      OlderThanKth(list, k);
    } else {
      assert list[0..] == list;
    }
  }

  lemma PageContinues(list: seq<Item>, k: nat, items: seq<Item>, n: nat)
    requires Descending(list) && k + |items| <= |list| && items == list[k..k + |items|] && n <= |items|
    ensures Continues(list, k, items, n)
  {
    assert list[..k] + items[..n] == list[..k + n] && items[..n] == list[k..k + n];
    FirstsOfDistinct(list[..k + n]);
    LeastIsLast(list, k, n);
  }

  lemma {:induction false} LeastIsLast(list: seq<Item>, k: nat, n: nat)
    requires Descending(list) && k + n <= |list|
    ensures Least(list[k..k + n]) == if n == 0 then 0 else list[k + n - 1].id
  {
    if n > 0 {
      LeastIsLast(list, k, n - 1);
      assert list[k..k + n][..n - 1] == list[k..k + n - 1];
    }
  }
}
