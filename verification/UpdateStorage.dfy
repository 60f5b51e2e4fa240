/** Applying updates and storing checkpoints behind one fail-stop barrier, and
    the consumer at the other end of the outbox. */
module UpdateStorage {
  import opened Wrappers
  import opened MessageCache
  import opened Outbox

  datatype AccountState = AccountState(pts: int, qts: int, date: int, serial: int)

  datatype ChannelState = ChannelState(pts: int, accessHash: Option<int>)

  /** One checkpoint statement of the updates manager. */
  datatype Checkpoint =
    | SetState(user: int, state: AccountState)
    | SetPts(user: int, v: int)
    | SetQts(user: int, v: int)
    | SetDate(user: int, v: int)
    | SetSeq(user: int, v: int)
    | SetDateSeq(user: int, date: int, v: int)
    | SetChannelPts(user: int, channel: int, pts: int)
    | SetChannelAccessHash(user: int, channel: int, hash: int)

  datatype Database = Database(
    d: Durable, accounts: map<int, AccountState>, channels: map<(int, int), ChannelState>)

  /** The statement's effect, or None for an UPDATE that finds no row. */
  function Store(db: Database, c: Checkpoint): Option<Database> {
    match c
    case SetState(u, s) => Some(db.(accounts := db.accounts[u := s]))
    case SetChannelPts(u, ch, pts) =>
      var stored := if (u, ch) in db.channels then db.channels[(u, ch)] else ChannelState(0, None);
      Some(db.(channels := db.channels[(u, ch) := stored.(pts := pts)]))
    case SetChannelAccessHash(u, ch, h) =>
      var stored := if (u, ch) in db.channels then db.channels[(u, ch)] else ChannelState(0, None);
      Some(db.(channels := db.channels[(u, ch) := stored.(accessHash := Some(h))]))
    case _ =>
      if c.user !in db.accounts then None
      else
        var a := db.accounts[c.user];
        var a' := match c
          case SetPts(_, v) => a.(pts := v)
          case SetQts(_, v) => a.(qts := v)
          case SetDate(_, v) => a.(date := v)
          case SetSeq(_, v) => a.(serial := v)
          case SetDateSeq(_, date, v) => a.(date := date, serial := v)
          case _ => a;
        Some(db.(accounts := db.accounts[c.user := a']))
  }

  function GetState(db: Database, user: int): Option<AccountState> {
    if user in db.accounts then Some(db.accounts[user]) else None
  }

  function GetChannelPts(db: Database, user: int, channel: int): Option<int> {
    if (user, channel) in db.channels then Some(db.channels[(user, channel)].pts) else None
  }

  function GetChannelAccessHash(db: Database, user: int, channel: int): Option<int> {
    if (user, channel) in db.channels then db.channels[(user, channel)].accessHash else None
  }

  /** What the getters say of a channel agrees in both databases. */
  predicate SameChannel(db: Database, db': Database, user: int, channel: int) {
    && GetChannelPts(db', user, channel) == GetChannelPts(db, user, channel)
    && GetChannelAccessHash(db', user, channel) == GetChannelAccessHash(db, user, channel)
  }

  /** An account setter is read back by the getters: the field set has the value,
      and every other field, account and channel is as before. */
  lemma AccountSetterReadsBack(db: Database, c: Checkpoint, user: int, channel: int)
    requires Store(db, c).Some? && !c.SetChannelPts? && !c.SetChannelAccessHash?
    ensures var db' := Store(db, c).value;
      && db'.d == db.d
      && SameChannel(db, db', user, channel)
      && (user != c.user ==> GetState(db', user) == GetState(db, user))
      && GetState(db', c.user).Some?
      && (!c.SetState? ==> GetState(db, c.user).Some?)
    ensures var before, after := GetState(db, c.user), GetState(Store(db, c).value, c.user);
      && (c.SetState? ==> after == Some(c.state))
      && (c.SetPts? ==> after == Some(before.value.(pts := c.v)))
      && (c.SetQts? ==> after == Some(before.value.(qts := c.v)))
      && (c.SetDate? ==> after == Some(before.value.(date := c.v)))
      && (c.SetSeq? ==> after == Some(before.value.(serial := c.v)))
      && (c.SetDateSeq? ==> after == Some(before.value.(date := c.date, serial := c.v)))
  {
  }

  /** A channel setter keeps the channel's other half, even when it has to create
      the row, and every account and other channel. */
  lemma ChannelSetterReadsBack(db: Database, c: Checkpoint, user: int, channel: int)
    requires c.SetChannelPts? || c.SetChannelAccessHash?
    ensures Store(db, c).Some?
    ensures var db' := Store(db, c).value;
      && db'.d == db.d
      && GetState(db', user) == GetState(db, user)
      && ((user, channel) != (c.user, c.channel) ==> SameChannel(db, db', user, channel))
      && (c.SetChannelPts? ==>
            && GetChannelPts(db', c.user, c.channel) == Some(c.pts)
            && GetChannelAccessHash(db', c.user, c.channel) == GetChannelAccessHash(db, c.user, c.channel))
      && (c.SetChannelAccessHash? ==>
            && GetChannelAccessHash(db', c.user, c.channel) == Some(c.hash)
            && GetChannelPts(db', c.user, c.channel)
               == (if GetChannelPts(db, c.user, c.channel).None? then Some(0) else GetChannelPts(db, c.user, c.channel)))
  {
  }

  /** What the updates manager asks of the storage, in order. */
  datatype Request = Handle(events: seq<ListenEvent>) | Save(checkpoint: Checkpoint)

  /** The whole durable effect of one request. */
  function Perform(db: Database, r: Request): Option<Database> {
    match r
    case Handle(events) => Some(db.(d := HandleAll(db.d, events)))
    case Save(c) => Store(db, c)
  }

  function Replay(db: Database, rs: seq<Request>): Option<Database> {
    if rs == [] then Some(db)
    else
      var before := Replay(db, rs[..|rs| - 1]);
      if before.None? then None else Perform(before.value, rs[|rs| - 1])
  }

  class Storage {
    const reliable: bool            // the database never fails on its own
    var db: Database
    var failed: bool
    ghost var base: Database        // the database this runtime started on
    ghost var asked: seq<Request>   // every request so far, also refused ones
    ghost var journal: seq<Request> // those whose effect is durable

    constructor (reliable: bool, db: Database)
      ensures Valid() && this.db == db && base == db && asked == [] && journal == [] && !failed
      ensures this.reliable == reliable
    {
      this.reliable := reliable;
      this.db, failed, base, asked, journal := db, false, db, [], [];
    }

    /** The durable effects are exactly those of a prefix of the requests, and
        of all of them until the first failure. */
    ghost predicate Valid()
      reads this
    {
      && journal <= asked && (!failed ==> journal == asked)
      && Replay(base, journal) == Some(db)
    }

    /** A failure of recovery outside any request closes the barrier too. */
    method Fail()
      requires Valid()
      modifies this`failed
      ensures Valid() && failed
    {
      failed := true;
    }

    /** One checkpoint setter. An error may hide that the write took effect. */
    method Exec(c: Checkpoint) returns (ok: bool)
      requires Valid()
      modifies this
      ensures Valid() && base == old(base)
      ensures asked == old(asked) + [Save(c)] && old(journal) <= journal
      ensures ok <==> !failed
      ensures old(failed) ==> !ok && db == old(db) && journal == old(journal)
      ensures ok ==> Store(old(db), c) == Some(db) && journal == asked
      ensures !ok ==> db == old(db) || Store(old(db), c) == Some(db)
      ensures reliable && !old(failed) ==> (ok <==> Store(old(db), c).Some?)
    {
      asked := asked + [Save(c)];
      if failed {
        return false;
      }
      var stored := Store(db, c);
      var lost, hidden: bool := *, *;
      if stored.None? || (lost && !reliable) {
        failed := true;
        return false;
      }
      Extends(base, journal, Save(c));
      db, journal := stored.value, journal + [Save(c)];
      failed := hidden && !reliable;
      ok := !failed;
    }

    /** One update, applied to cache and outbox in one transaction. */
    method HandleUpdate(events: seq<ListenEvent>) returns (ok: bool)
      requires Valid()
      modifies this
      ensures Valid() && base == old(base)
      ensures asked == old(asked) + [Handle(events)] && old(journal) <= journal
      ensures ok <==> !failed
      ensures old(failed) ==> !ok && db == old(db) && journal == old(journal)
      ensures ok ==> db == old(db).(d := HandleAll(old(db).d, events)) && journal == asked
      ensures !ok ==> db == old(db) || db == old(db).(d := HandleAll(old(db).d, events))
      ensures reliable && !old(failed) ==> ok
    {
      asked := asked + [Handle(events)];
      if failed {
        return false;
      }
      var d := db.d;
      for i := 0 to |events|
        invariant d == HandleAll(old(db).d, events[..i])
        invariant db == old(db) && journal == old(journal) && base == old(base) && !failed
        invariant asked == old(asked) + [Handle(events)]
      {
        var broken: bool := *;
        if broken && !reliable {
          failed := true;  // rolled back: nothing of the update is durable
          return false;
        }
        d := HandleEvent(d, events[i]);
        assert events[..i + 1][..i] == events[..i];
      }
      assert events[..|events|] == events;
      var lost, hidden: bool := *, *;
      if lost && !reliable {
        failed := true;
        return false;
      }
      Extends(base, journal, Handle(events));
      db, journal := db.(d := d), journal + [Handle(events)];
      failed := hidden && !reliable;
      ok := !failed;
    }

    /** Any caller, even one that keeps saving checkpoints after an error. */
    method Serve(requests: seq<Request>) returns (oks: seq<bool>)
      requires Valid() && asked == [] && journal == [] && !failed
      modifies this
      ensures Valid() && base == old(base) && asked == requests && |oks| == |requests|
      ensures reliable && (forall i | 0 <= i < |requests| :: requests[i].Handle?) ==> forall i | 0 <= i < |oks| :: oks[i]
      // fail-stop: after the first failure nothing succeeds any more
      ensures forall i, j | 0 <= i <= j < |oks| && oks[j] :: oks[i]
    {
      oks := [];
      for i := 0 to |requests|
        invariant Valid() && base == old(base) && asked == requests[..i] && |oks| == i
        invariant forall m, n | 0 <= m <= n < i && oks[n] :: oks[m]
        invariant failed || forall m | 0 <= m < i :: oks[m]
        invariant reliable && (forall m | 0 <= m < i :: requests[m].Handle?) ==> !failed
      {
        var ok;
        match requests[i] {
          case Handle(events) => ok := HandleUpdate(events);
          case Save(c) => ok := Exec(c);
        }
        oks := oks + [ok];
        assert requests[..i + 1] == requests[..i] + [requests[i]];
      }
      assert requests[..|requests|] == requests;
    }
  }

  lemma Extends(db: Database, rs: seq<Request>, r: Request)
    ensures Replay(db, rs).Some? ==> Replay(db, rs + [r]) == Perform(Replay(db, rs).value, r)
  {
    assert (rs + [r])[..|rs|] == rs;
  }

  /** PERSISTENCE BARRIER. In any durable journal that is a prefix of the
      requests, a checkpoint at position i was written over a database holding
      every update handled before it, in order and completely. */
  lemma CheckpointsCoverUpdates(base: Database, asked: seq<Request>, journal: seq<Request>, i: nat)
    requires journal <= asked && i < |journal| && journal[i].Save? && Replay(base, journal).Some?
    ensures asked[i] == journal[i] && asked[..i] == journal[..i]
    ensures Replay(base, asked[..i]).Some?
    ensures Replay(base, journal[..i + 1]) == Store(Replay(base, asked[..i]).value, journal[i].checkpoint)
    ensures Replay(base, asked[..i]).value.d == Updated(base.d, asked[..i])
  {
    PrefixReplays(base, journal, i);
    PrefixReplays(base, journal, i + 1);
    assert journal[..i + 1] == journal[..i] + [journal[i]];
    Extends(base, journal[..i], journal[i]);
    assert asked[..i] == journal[..i];
    ReplayUpdates(base, asked[..i]);
  }

  /** Cache and outbox after exactly the updates among the requests. */
  function Updated(d: Durable, rs: seq<Request>): Durable {
    if rs == [] then d
    else match rs[|rs| - 1]
      case Handle(events) => HandleAll(Updated(d, rs[..|rs| - 1]), events)
      case Save(_) => Updated(d, rs[..|rs| - 1])
  }

  lemma {:induction false} PrefixReplays(db: Database, rs: seq<Request>, n: nat)
    requires n <= |rs| && Replay(db, rs).Some?
    ensures Replay(db, rs[..n]).Some?
    decreases |rs|
  {
    if n < |rs| {
      PrefixReplays(db, rs[..|rs| - 1], n);
      assert rs[..|rs| - 1][..n] == rs[..n];
    } else {
      assert rs[..n] == rs;
    }
  }

  lemma {:induction false} ReplayUpdates(db: Database, rs: seq<Request>)
    requires Replay(db, rs).Some?
    ensures Replay(db, rs).value.d == Updated(db.d, rs)
  {
    if rs != [] {
      ReplayUpdates(db, rs[..|rs| - 1]);
    }
  }

  /** One process reading the outbox. */
  class Consumer {
    var lastEvent: nat

    constructor ()
      ensures lastEvent == 0
    {
      lastEvent := 0;
    }

    /** A client that is opened again remembers no delivery. */
    method Reopen()
      modifies this
      ensures lastEvent == 0
    {
      lastEvent := 0;
    }

    /** The oldest pending event, or nothing when the outbox is empty or its
        head is not an event. */
    method ListenOnce(d: Durable) returns (r: Option<(nat, ListenEvent)>)
      modifies this
      ensures d.queue == map[] ==> r.None?
      ensures r.Some? ==>
        && IsOldest(d.queue, r.value.0) && d.queue[r.value.0] == Event(r.value.1) && lastEvent == r.value.0
      ensures r.None? ==> lastEvent == old(lastEvent)
      ensures r.None? && d.queue != map[] ==> exists id :: IsOldest(d.queue, id) && d.queue[id].Malformed?
    {
      if d.queue == map[] {
        return None;
      }
      ghost var oldest := OldestExists(d.queue);
      var id :| id in d.queue && IsOldest(d.queue, id);
      match d.queue[id]
      case Malformed(_) => return None;
      case Event(e) =>
        lastEvent := id;
        return Some((id, e));
    }

    /** Removes only what was delivered to this consumer. */
    method AcknowledgeEvent(d: Durable, id: nat, broken: bool) returns (d': Durable, ok: bool)
      modifies this
      ensures ok <==> id == 0 || (id == old(lastEvent) && !broken)
      ensures ok ==> d' == (if id == 0 then d else d.(queue := d.queue - {id}))
      ensures ok && id != 0 ==> id == old(lastEvent) && lastEvent == 0
      ensures !ok ==> d' == d && lastEvent == old(lastEvent)
    {
      if id == 0 {
        return d, true;
      }
      if id != lastEvent || broken {
        return d, false;
      }
      lastEvent := 0;
      return d.(queue := d.queue - {id}), true;
    }
  }
}
