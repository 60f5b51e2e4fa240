/** The sliding-window limit on writes: one specification, kept in memory by one
    limiter and in a table shared by processes by the other. */
module RateLimit {
  import opened Wrappers

  /** The grants still inside the window that ends now. */
  function Live(granted: seq<int>, cutoff: int): (live: seq<int>)
    ensures |live| <= |granted|
  {
    if granted == [] || granted[|granted| - 1] <= cutoff then []
    else Live(granted[..|granted| - 1], cutoff) + [granted[|granted| - 1]]
  }

  /** None grants the request; otherwise the time to wait. */
  function Decide(granted: seq<int>, now: int, max: int, window: int): Option<int>
    requires max >= 1
  {
    var live := Live(granted, now - window);
    if |live| < max then None else Some(live[0] + window - now)
  }

  function After(granted: seq<int>, now: int, max: int, window: int): seq<int>
    requires max >= 1
  {
    if Decide(granted, now, max, window).None? then granted + [now] else granted
  }

  ghost predicate Ascending(s: seq<int>) {
    |s| < 2 || (Ascending(s[..|s| - 1]) && s[|s| - 2] <= s[|s| - 1])
  }

  /** Any max + 1 consecutive grants span at least a window. */
  ghost predicate Spaced(s: seq<int>, max: int, window: int)
    requires max >= 1
  {
    |s| <= max || (Spaced(s[..|s| - 1], max, window) && s[|s| - 1 - max] + window <= s[|s| - 1])
  }

  /** A history of grants the limiter can have, on a clock that never went back
      and now stands at the given time. */
  ghost predicate History(granted: seq<int>, now: int, max: int, window: int) {
    && max >= 1 && window >= 1
    && Ascending(granted) && Spaced(granted, max, window)
    && (granted != [] ==> granted[|granted| - 1] <= now)
  }

  lemma {:induction false} AscendingAt(s: seq<int>, i: nat, j: nat)
    requires Ascending(s) && i <= j < |s|
    ensures s[i] <= s[j]
    decreases |s|
  {
    if j < |s| - 1 {
      AscendingAt(s[..|s| - 1], i, j);
    } else if i < j {
      AscendingAt(s[..|s| - 1], i, j - 1);
    }
  }

  lemma {:induction false} SpacedAt(s: seq<int>, max: int, window: int, i: nat)
    requires max >= 1 && Spaced(s, max, window) && i + max < |s|
    ensures s[i] + window <= s[i + max]
    decreases |s|
  {
    if i + max < |s| - 1 {
      SpacedAt(s[..|s| - 1], max, window, i);
    }
  }

  /** What is live is the suffix from the first grant that is not expired. */
  lemma {:induction false} LiveFrom(granted: seq<int>, n: nat, cutoff: int)
    requires Ascending(granted) && n <= |granted|
    requires (n > 0 ==> granted[n - 1] <= cutoff) && (n < |granted| ==> granted[n] > cutoff)
    ensures Live(granted, cutoff) == granted[n..]
    decreases |granted|
  {
    if n < |granted| {
      var before, last := granted[..|granted| - 1], granted[|granted| - 1];
      assert last > cutoff by {
        AscendingAt(granted, n, |granted| - 1);
      }
      assert Live(before, cutoff) == before[n..] by {
        LiveFrom(before, n, cutoff);
      }
      SuffixOfMore(before, last, n);
      assert before + [last] == granted;
    }
  }

  lemma SuffixOfMore(s: seq<int>, x: int, n: nat)
    requires n <= |s|
    ensures (s + [x])[..|s|] == s && (s + [x])[n..] == s[n..] + [x]
  {
  }

  lemma {:induction false} LiveIsSuffix(granted: seq<int>, cutoff: int) returns (n: nat)
    ensures n <= |granted| && Live(granted, cutoff) == granted[n..]
    ensures (n > 0 ==> granted[n - 1] <= cutoff) && (n < |granted| ==> granted[n] > cutoff)
  {
    if granted == [] || granted[|granted| - 1] <= cutoff {
      n := |granted|;
    } else {
      var before := granted[..|granted| - 1];
      n := LiveIsSuffix(before, cutoff);
      SuffixOfMore(before, granted[|granted| - 1], n);
      assert before + [granted[|granted| - 1]] == granted;
    }
  }

  /** A refusal happens only with exactly max grants in the window, and the wait
      is positive and at most the window. */
  lemma RefusedOnlyWhenFull(granted: seq<int>, now: int, max: int, window: int)
    requires History(granted, now, max, window)
    ensures |Live(granted, now - window)| <= max
    ensures Decide(granted, now, max, window).Some? <==> |Live(granted, now - window)| == max
    ensures Decide(granted, now, max, window).Some? ==> 0 < Decide(granted, now, max, window).value <= window
  {
    var n := LiveIsSuffix(granted, now - window);
    if n < |granted| {
      AscendingAt(granted, n, |granted| - 1);
      if n + max < |granted| {
        SpacedAt(granted, max, window, n);
        AscendingAt(granted, n + max, |granted| - 1);
        assert false;
      }
    }
  }

  /** WAIT IS LEAST. Without other grants, the request succeeds after a delay
      exactly when the delay is at least the reported wait. */
  lemma WaitIsLeast(granted: seq<int>, now: int, max: int, window: int, delay: nat)
    requires History(granted, now, max, window) && Decide(granted, now, max, window).Some?
    ensures Decide(granted, now + delay, max, window).None? <==> delay >= Decide(granted, now, max, window).value
  {
    RefusedOnlyWhenFull(granted, now, max, window);
    var n := LiveIsSuffix(granted, now - window);
    var m := LiveIsSuffix(granted, now + delay - window);
    assert Live(granted, now - window)[0] == granted[n];
    FirstToExpire(granted, n, m, now - window, now + delay - window);
    assert |Live(granted, now + delay - window)| == |granted| - m;
  }

  /** With n grants expired now and m later, some more have expired exactly if the
      first live one has. */
  lemma FirstToExpire(granted: seq<int>, n: nat, m: nat, cutoff: int, later: int)
    requires Ascending(granted) && n < |granted| && m <= |granted| && cutoff <= later && granted[n] > cutoff
    requires (n > 0 ==> granted[n - 1] <= cutoff)
    requires (m > 0 ==> granted[m - 1] <= later) && (m < |granted| ==> granted[m] > later)
    ensures n <= m && (m > n <==> granted[n] <= later)
  {
    if m > n {
      AscendingAt(granted, n, m - 1);
    } else if m < n {
      AscendingAt(granted, m, n - 1);
    }
  }

  lemma HistoryGrows(granted: seq<int>, now: int, max: int, window: int)
    requires History(granted, now, max, window)
    ensures History(After(granted, now, max, window), now, max, window)
  {
    if Decide(granted, now, max, window).None? {
      var n := LiveIsSuffix(granted, now - window);
      var after := granted + [now];
      assert after[..|after| - 1] == granted;
      if |granted| >= max {
        AscendingAt(granted, |granted| - max, n - 1);
      }
    }
  }

  function Run(requests: seq<int>, max: int, window: int): seq<int>
    requires max >= 1
  {
    if requests == [] then []
    else After(Run(requests[..|requests| - 1], max, window), requests[|requests| - 1], max, window)
  }

  lemma {:induction false} RunIsHistory(requests: seq<int>, max: int, window: int)
    requires max >= 1 && window >= 1 && Ascending(requests) && requests != []
    ensures History(Run(requests, max, window), requests[|requests| - 1], max, window)
  {
    if |requests| > 1 {
      RunIsHistory(requests[..|requests| - 1], max, window);
      HistoryGrows(Run(requests[..|requests| - 1], max, window), requests[|requests| - 1], max, window);
    } else {
      assert requests[..0] == [];
      HistoryGrows([], requests[0], max, window);
    }
  }

  /** SLIDING WINDOW. In any run of requests on a clock that does not go back, a
      grant and the max-th grant after it are at least a window apart. */
  lemma RunIsSpaced(requests: seq<int>, max: int, window: int)
    requires max >= 1 && window >= 1
    requires forall i, j | 0 <= i < j < |requests| :: requests[i] <= requests[j]
    ensures var granted := Run(requests, max, window);
      forall i | 0 <= i < |granted| - max :: granted[i] + window <= granted[i + max]
  {
    var granted := Run(requests, max, window);
    if requests != [] {
      SortedIsAscending(requests);
      RunIsHistory(requests, max, window);
      forall i | 0 <= i < |granted| - max ensures granted[i] + window <= granted[i + max] {
        SpacedAt(granted, max, window, i);
      }
    }
  }

  lemma {:induction false} SortedIsAscending(s: seq<int>)
    requires forall i, j | 0 <= i < j < |s| :: s[i] <= s[j]
    ensures Ascending(s)
  {
    if |s| >= 2 {
      SortedIsAscending(s[..|s| - 1]);
    }
  }

  lemma {:induction false} LiveLater(s: seq<int>, cutoff: int, later: int)
    requires Ascending(s) && cutoff <= later
    ensures Ascending(Live(s, cutoff)) && Live(Live(s, cutoff), later) == Live(s, later)
    ensures Live(s, cutoff) != [] ==> Live(s, cutoff)[0] > cutoff
  {
    if s != [] && s[|s| - 1] > cutoff {
      var before, live := s[..|s| - 1], Live(s, cutoff);
      LiveLater(before, cutoff, later);
      assert live[..|live| - 1] == Live(before, cutoff);
      if |live| > 1 {
        LastOfLive(before, cutoff);
      }
    }
  }

  lemma LastOfLive(s: seq<int>, cutoff: int)
    requires Live(s, cutoff) != []
    ensures s != [] && Live(s, cutoff)[|Live(s, cutoff)| - 1] == s[|s| - 1]
  {
  }

  lemma LiveOfMore(s: seq<int>, x: int, cutoff: int)
    requires x > cutoff
    ensures Live(s + [x], cutoff) == Live(s, cutoff) + [x]
  {
    assert (s + [x])[..|s|] == s;
  }

  /** What every limiter keeps true: it has dropped the grants up to some time
      outside the window, and nothing else. */
  ghost predicate Good(kept: seq<int>, granted: seq<int>, cut: int, now: int, max: int, window: int) {
    History(granted, now, max, window) && kept == Live(granted, cut) && cut <= now - window
  }

  /** Expired rows may be dropped as time passes. */
  lemma GoodLater(kept: seq<int>, granted: seq<int>, cut: int, last: int, now: int, max: int, window: int)
    requires Good(kept, granted, cut, last, max, window) && last <= now
    ensures Good(kept, granted, cut, now, max, window)
    ensures Live(kept, now - window) == Live(granted, now - window)
    ensures Good(Live(granted, now - window), granted, now - window, now, max, window)
    ensures Ascending(kept)
  {
    LiveLater(granted, cut, now - window);
  }

  lemma GoodRefusal(live: seq<int>, granted: seq<int>, now: int, max: int, window: int)
    requires Good(live, granted, now - window, now, max, window) && |live| >= max
    ensures After(granted, now, max, window) == granted
    ensures Decide(granted, now, max, window) == Some(live[0] + window - now) && 0 < live[0] + window - now
  {
    RefusedOnlyWhenFull(granted, now, max, window);
  }

  lemma GoodGrant(live: seq<int>, granted: seq<int>, now: int, max: int, window: int)
    requires Good(live, granted, now - window, now, max, window) && |live| < max
    ensures After(granted, now, max, window) == granted + [now] && Decide(granted, now, max, window).None?
    ensures Good(live + [now], granted + [now], now - window, now, max, window)
  {
    HistoryGrows(granted, now, max, window);
    LiveOfMore(granted, now, now - window);
  }

  lemma Expired(kept: seq<int>, granted: seq<int>, cut: int, last: int, now: int, max: int, window: int, i: nat)
    requires Good(kept, granted, cut, last, max, window) && last <= now && i <= |kept|
    requires (i > 0 ==> kept[i - 1] <= now - window) && (i < |kept| ==> kept[i] > now - window)
    ensures Good(kept[i..], granted, now - window, now, max, window)
  {
    var live := Live(granted, now - window);
    assert kept[i..] == live by {
      GoodLater(kept, granted, cut, last, now, max, window);
      LiveFrom(kept, i, now - window);
    }
    assert Good(live, granted, now - window, now, max, window) by {
      GoodLater(kept, granted, cut, last, now, max, window);
    }
  }

  class RateLimiter {
    const max: int
    const window: int
    var events: seq<int>
    ghost var granted: seq<int>
    ghost var cut: int
    ghost var last: int  // the clock at the latest check

    constructor (max: int, window: int, ghost now: int)
      requires max >= 1 && window >= 1
      ensures Valid() && granted == [] && last == now && this.max == max && this.window == window
    {
      this.max, this.window, events := max, window, [];
      granted, cut, last := [], now - window, now;
    }

    ghost predicate Valid()
      reads this
    {
      Good(events, granted, cut, last, max, window)
    }

    /** Drops the expired events from the front. */
    method Expire(now: int)
      requires Valid() && last <= now
      modifies this`events, this`cut, this`last
      ensures last == now && cut == now - window && Valid()
    {
      var i := 0;
      while i < |events| && events[i] <= now - window
        invariant 0 <= i <= |events|
        invariant i > 0 ==> events[i - 1] <= now - window
      {
        i := i + 1;
      }
      Expired(events, granted, cut, last, now, max, window, i);
      events, cut, last := events[i..], now - window, now;
    }

    method Check(now: int) returns (wait: int)
      requires Valid() && last <= now
      modifies this
      ensures Valid() && last == now
      ensures granted == After(old(granted), now, max, window)
      ensures wait == if Decide(old(granted), now, max, window).None? then 0 else Decide(old(granted), now, max, window).value
      ensures wait > 0 <==> Decide(old(granted), now, max, window).Some?
    {
      Expire(now);
      if |events| >= max {
        GoodRefusal(events, granted, now, max, window);
        return window - (now - events[0]);
      }
      GoodGrant(events, granted, now, max, window);
      events, granted := events + [now], granted + [now];
      return 0;
    }
  }

  /** DELETE FROM tg_write_window WHERE at_unix <= cutoff leaves these rows. */
  function Keep(rows: seq<int>, cutoff: int): seq<int> {
    if rows == [] then []
    else Keep(rows[..|rows| - 1], cutoff) + if rows[|rows| - 1] > cutoff then [rows[|rows| - 1]] else []
  }

  function Minimum(rows: seq<int>): int
    requires rows != []
  {
    if |rows| == 1 then rows[0]
    else
      var m := Minimum(rows[..|rows| - 1]);
      if rows[|rows| - 1] < m then rows[|rows| - 1] else m
  }

  lemma {:induction false} KeepIsLive(rows: seq<int>, cutoff: int)
    requires Ascending(rows)
    ensures Keep(rows, cutoff) == Live(rows, cutoff)
  {
    if rows != [] {
      KeepIsLive(rows[..|rows| - 1], cutoff);
      if |rows| > 1 && rows[|rows| - 1] <= cutoff {
        assert Live(rows[..|rows| - 1], cutoff) == [];
      }
    }
  }

  /** MIN over the rows, in whatever order they are. */
  lemma {:induction false} MinimumIsLeast(rows: seq<int>)
    requires rows != []
    ensures Minimum(rows) in rows && forall x | x in rows :: Minimum(rows) <= x
  {
    if |rows| > 1 {
      MinimumIsLeast(rows[..|rows| - 1]);
      assert rows == rows[..|rows| - 1] + [rows[|rows| - 1]];
    }
  }

  /** DELETE keeps exactly the rows after the cutoff, as often as they are there. */
  lemma {:induction false} KeepExactly(rows: seq<int>, cutoff: int, x: int)
    ensures multiset(Keep(rows, cutoff))[x] == if x > cutoff then multiset(rows)[x] else 0
  {
    if rows != [] {
      KeepExactly(rows[..|rows| - 1], cutoff, x);
      assert rows == rows[..|rows| - 1] + [rows[|rows| - 1]];
    }
  }

  lemma {:induction false} MinimumIsFirst(rows: seq<int>)
    requires rows != [] && Ascending(rows)
    ensures Minimum(rows) == rows[0]
  {
    if |rows| > 1 {
      MinimumIsFirst(rows[..|rows| - 1]);
      AscendingAt(rows, 0, |rows| - 1);
    }
  }

  const ACCOUNT_MAX := 20
  const ACCOUNT_WINDOW := 60

  /** The reservations still possible at a time, for a history of grants. */
  function Slots(granted: seq<int>, now: int): int {
    ACCOUNT_MAX - |Live(granted, now - ACCOUNT_WINDOW)|
  }

  /** What the rows seen by the SELECT say of the history. */
  lemma WindowDecides(kept: seq<int>, granted: seq<int>, now: int)
    requires Good(kept, granted, now - ACCOUNT_WINDOW, now, ACCOUNT_MAX, ACCOUNT_WINDOW)
    ensures Slots(granted, now) == ACCOUNT_MAX - |kept|
    ensures |kept| >= ACCOUNT_MAX ==>
      Decide(granted, now, ACCOUNT_MAX, ACCOUNT_WINDOW) == Some(kept[0] + ACCOUNT_WINDOW - now) && 0 < kept[0] + ACCOUNT_WINDOW - now
    ensures |kept| < ACCOUNT_MAX ==>
      && After(granted, now, ACCOUNT_MAX, ACCOUNT_WINDOW) == granted + [now]
      && Good(kept + [now], granted + [now], now - ACCOUNT_WINDOW, now, ACCOUNT_MAX, ACCOUNT_WINDOW)
  {
    if |kept| >= ACCOUNT_MAX {
      GoodRefusal(kept, granted, now, ACCOUNT_MAX, ACCOUNT_WINDOW);
    } else {
      GoodGrant(kept, granted, now, ACCOUNT_MAX, ACCOUNT_WINDOW);
    }
  }

  /** Time only frees slots. */
  lemma SlotsLater(granted: seq<int>, now: int, later: int)
    requires Ascending(granted) && now <= later
    ensures Slots(granted, now) <= Slots(granted, later)
  {
    var live := Live(granted, now - ACCOUNT_WINDOW);
    assert Live(live, later - ACCOUNT_WINDOW) == Live(granted, later - ACCOUNT_WINDOW) by {
      LiveLater(granted, now - ACCOUNT_WINDOW, later - ACCOUNT_WINDOW);
    }
  }

  /** A grant takes one. */
  lemma SlotsAfterGrant(granted: seq<int>, now: int)
    ensures Slots(granted + [now], now) == Slots(granted, now) - 1
  {
    LiveOfMore(granted, now, now - ACCOUNT_WINDOW);
  }

  datatype Reservation = Reserved | Refused(wait: int) | DatabaseError

  /** How the database may fail a transaction: before anything is decided, at a
      commit without effect, or at a commit that took effect all the same. */
  datatype Fault = Broken | Lost | Hidden

  /** The table tg_write_window, in seconds. */
  class WriteWindow {
    const faults: map<nat, Fault>  // the transactions that fail, by number
    var used: nat                  // transactions so far
    var rows: seq<int>
    ghost var granted: seq<int>
    ghost var cut: int
    ghost var last: int

    constructor (ghost now: int, faults: map<nat, Fault>)
      ensures Valid() && granted == [] && last == now && this.faults == faults && used == 0
    {
      this.faults := faults;
      used, rows, granted, cut, last := 0, [], [], now - ACCOUNT_WINDOW, now;
    }

    ghost predicate Valid()
      reads this
    {
      Good(rows, granted, cut, last, ACCOUNT_MAX, ACCOUNT_WINDOW)
    }

    /** The n-th transaction from now would fail, or find the window full. */
    predicate Stops(n: nat, slots: int)
      reads this`used
    {
      used + n in faults || slots <= n
    }

    /** The DELETE at the start of the transaction. */
    method Query(now: int) returns (kept: seq<int>)
      requires Valid() && last <= now
      ensures Good(rows, granted, cut, now, ACCOUNT_MAX, ACCOUNT_WINDOW)
      ensures Good(kept, granted, now - ACCOUNT_WINDOW, now, ACCOUNT_MAX, ACCOUNT_WINDOW)
      ensures kept != [] ==> Minimum(kept) == kept[0]
    {
      GoodLater(rows, granted, cut, last, now, ACCOUNT_MAX, ACCOUNT_WINDOW);
      KeepIsLive(rows, now - ACCOUNT_WINDOW);
      LiveLater(rows, now - ACCOUNT_WINDOW, now - ACCOUNT_WINDOW);
      kept := Keep(rows, now - ACCOUNT_WINDOW);
      if kept != [] {
        MinimumIsFirst(kept);
      }
    }

    /** What the SELECT sees decides. */
    method Decided(now: int) returns (r: Reservation, kept: seq<int>)
      requires Valid() && last <= now
      modifies this`last
      ensures Valid() && last == now
      ensures !r.DatabaseError? && (r.Reserved? <==> Slots(granted, now) > 0)
      ensures r.Refused? ==> Decide(granted, now, ACCOUNT_MAX, ACCOUNT_WINDOW) == Some(r.wait)
      ensures r.Reserved? ==>
        && After(granted, now, ACCOUNT_MAX, ACCOUNT_WINDOW) == granted + [now]
        && Good(kept + [now], granted + [now], now - ACCOUNT_WINDOW, now, ACCOUNT_MAX, ACCOUNT_WINDOW)
    {
      kept := Query(now);
      last := now;
      WindowDecides(kept, granted, now);
      r := Reserved;
      if |kept| >= ACCOUNT_MAX {
        var wait := Minimum(kept) + ACCOUNT_WINDOW - now;
        r := Refused(if wait > 1 then wait else 1);
      }
    }

    /** One transaction. It reserves exactly if it does not fail and a slot is
        free, and then takes that slot; nothing else changes the table, except
        that a failing commit may hide a reservation. */
    method Reserve(now: int) returns (r: Reservation)
      requires Valid() && last <= now
      modifies this
      ensures Valid() && last == now && used == old(used) + 1
      ensures r.Reserved? <==> !old(Stops(0, Slots(granted, now)))
      ensures r.Reserved? ==> granted == old(granted) + [now] == After(old(granted), now, ACCOUNT_MAX, ACCOUNT_WINDOW)
      ensures r.Reserved? ==> Slots(granted, now) == Slots(old(granted), now) - 1
      ensures r.Refused? ==> Decide(old(granted), now, ACCOUNT_MAX, ACCOUNT_WINDOW) == Some(r.wait)
      ensures r.Refused? ==> granted == old(granted) && rows == old(rows)
      ensures r.DatabaseError? ==> old(used) in faults
      ensures r.DatabaseError? ==>
        granted == old(granted) || granted == After(old(granted), now, ACCOUNT_MAX, ACCOUNT_WINDOW)
    {
      var fault := if used in faults then Some(faults[used]) else None;
      used := used + 1;
      var kept;
      r, kept := Decided(now);
      if fault == Some(Broken) {
        return DatabaseError;
      }
      if r.Reserved? && fault != Some(Lost) {
        Insert(kept, now);
      }
      if r.Reserved? && fault.Some? {
        return DatabaseError;
      }
    }

    /** The INSERT, committed together with the DELETE. */
    method Insert(kept: seq<int>, now: int)
      requires Good(kept + [now], granted + [now], now - ACCOUNT_WINDOW, now, ACCOUNT_MAX, ACCOUNT_WINDOW)
      requires last == now
      modifies this`rows, this`granted, this`cut
      ensures Valid() && granted == old(granted) + [now]
      ensures Slots(granted, now) == Slots(old(granted), now) - 1
    {
      SlotsAfterGrant(granted, now);
      rows, granted, cut := kept + [now], granted + [now], now - ACCOUNT_WINDOW;
    }
  }
}
