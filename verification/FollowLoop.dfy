/** The follow loop of sync: events from the outbox move the stored checkpoint
    on, while other processes work on the same database. */
module FollowLoop {
  import opened Wrappers
  import opened MessageCache
  import opened Outbox
  import opened UpdateStorage
  import opened HistoryPaging
  import opened SyncCheckpoint

  const FIRST_DELAY := 100_000_000  // nanoseconds
  const DEFAULT_MAX_DELAY := 5_000_000_000

  /** The n-th pause of one outage in closed form. */
  function Delay(max: int, n: nat): int {
    if n == 0 then Min(FIRST_DELAY, max) else Min(2 * Delay(max, n - 1), max)
  }

  function Min(a: int, b: int): int {
    if a < b then a else b
  }

  function Power(n: nat): int {
    if n == 0 then 1 else 2 * Power(n - 1)
  }

  /** Pauses double from the first up to the configured maximum. */
  lemma {:induction false} DelayDoubles(max: int, n: nat)
    requires max > 0
    ensures Delay(max, n) == Min(FIRST_DELAY * Power(n), max)
  {
    if n > 0 {
      DelayDoubles(max, n - 1);
    }
  }

  /** What an event did to its message is still in the cache, or overtaken. */
  predicate Settled(c: Cache, e: ListenEvent) {
    match EffectOn(Live(e), KeyOf(e))
    case Shows(x) => Holds(c, e.chat, Item(e.message, Ordinary, x))
    case DeletesRow => TombstonedAt(c, KeyOf(e))
    case _ => true
  }

  /** Nothing is ever forgotten between the two caches. */
  ghost predicate Remembers(c: Cache, c': Cache) {
    && (forall chat, x :: Holds(c, chat, x) ==> Holds(c', chat, x))
    && (forall k :: TombstonedAt(c, k) ==> TombstonedAt(c', k))
  }

  lemma ChangeRemembers(c: Cache, ch: Change)
    ensures Remembers(c, Apply(c, ch))
  {
    forall k | TombstonedAt(c, k) ensures TombstonedAt(Apply(c, ch), k) {
      TombstonesStay(c, ch, k);
    }
    forall chat, x | Holds(c, chat, x) ensures Holds(Apply(c, ch), chat, x) {
      var k := MessageKey(chat, x.id);
      RowAfter(c, ch, k);
      if EffectOn(ch, k).Shows? && !c.messages[k].deleted {
        var x', cur := EffectOn(ch, k).content, c.messages[k].content;
        if Newer(x', cur) {
          NewerIsTransitive(x', cur, x.content);
        }
      }
    }
  }

  lemma {:induction false} ChangesRemember(c: Cache, changes: seq<Change>)
    ensures Remembers(c, ApplyAll(c, changes))
  {
    if changes != [] {
      ChangesRemember(c, changes[..|changes| - 1]);
      ChangeRemembers(ApplyAll(c, changes[..|changes| - 1]), changes[|changes| - 1]);
    }
  }

  lemma EventSettles(c: Cache, e: ListenEvent)
    ensures Settled(Persist(c, e), e)
  {
    RowAfter(c, Live(e), KeyOf(e));
    NewerIsTotal(e.content, e.content);
    if KeyOf(e) in c.messages {
      NewerIsTotal(e.content, c.messages[KeyOf(e)].content);
    }
  }

  /** All committed events are settled in the cache, and whatever is queued was
      committed; queue ids are positive. */
  ghost predicate Logged(d: Durable, log: seq<ListenEvent>) {
    && (forall e | e in log :: Settled(d.cache, e))
    && (forall id | id in d.queue && d.queue[id].Event? :: d.queue[id].event in log)
    && 0 !in d.queue && d.next > 0
  }

  lemma EventLogged(d: Durable, log: seq<ListenEvent>, e: ListenEvent)
    requires Logged(d, log)
    ensures Logged(HandleEvent(d, e), log + [e]) && Remembers(d.cache, HandleEvent(d, e).cache)
  {
    var d' := HandleEvent(d, e);
    ChangeRemembers(d.cache, Live(e));
    EventSettles(d.cache, e);
    forall id | id in d'.queue && d'.queue[id].Event? ensures d'.queue[id].event in log + [e] {
      if id in d.queue && d'.queue[id] == d.queue[id] {
        assert d.queue[id].event in log;
      } else {
        assert d'.queue[id].event == e;
      }
    }
  }

  lemma {:induction false} EventsLogged(d: Durable, log: seq<ListenEvent>, es: seq<ListenEvent>)
    requires Logged(d, log)
    ensures Logged(HandleAll(d, es), log + es) && Remembers(d.cache, HandleAll(d, es).cache)
  {
    if es == [] {
      assert log + es == log;
    } else {
      var before, last := es[..|es| - 1], es[|es| - 1];
      EventsLogged(d, log, before);
      EventLogged(HandleAll(d, before), log + before, last);
      assert log + es == log + before + [last];
    }
  }

  /** The cache is what the changes made of it, and the events are among them. */
  ghost predicate Written(d: Durable, log: seq<ListenEvent>, changes: seq<Change>) {
    d.cache == ApplyAll(EMPTY_CACHE, changes) && forall e | e in log :: Live(e) in changes
  }

  function LiveChanges(es: seq<ListenEvent>): seq<Change> {
    seq(|es|, i requires 0 <= i < |es| => Live(es[i]))
  }

  lemma OneMoreChange(c: Cache, changes: seq<Change>, ch: Change)
    ensures ApplyAll(c, changes + [ch]) == Apply(ApplyAll(c, changes), ch)
  {
    assert (changes + [ch])[..|changes|] == changes;
  }

  lemma {:induction false} AppliedInParts(c: Cache, one: seq<Change>, two: seq<Change>)
    ensures ApplyAll(c, one + two) == ApplyAll(ApplyAll(c, one), two)
  {
    if two == [] {
      assert one + two == one;
    } else {
      var before, last := two[..|two| - 1], two[|two| - 1];
      AppliedInParts(c, one, before);
      OneMoreChange(c, one + before, last);
      assert one + two == one + before + [last];
    }
  }

  lemma {:induction false} EventsAreChanges(d: Durable, es: seq<ListenEvent>)
    ensures HandleAll(d, es).cache == ApplyAll(d.cache, LiveChanges(es))
  {
    if es != [] {
      EventsAreChanges(d, es[..|es| - 1]);
      assert LiveChanges(es)[..|es| - 1] == LiveChanges(es[..|es| - 1]);
    }
  }

  lemma EventsWritten(d: Durable, log: seq<ListenEvent>, changes: seq<Change>, es: seq<ListenEvent>)
    requires Written(d, log, changes)
    ensures Written(HandleAll(d, es), log + es, changes + LiveChanges(es))
  {
    EventsAreChanges(d, es);
    AppliedInParts(EMPTY_CACHE, changes, LiveChanges(es));
    forall e | e in log + es ensures Live(e) in changes + LiveChanges(es) {
      if e !in log {
        var i :| 0 <= i < |es| && es[i] == e;
        assert LiveChanges(es)[i] == Live(e);
      }
    }
  }

  lemma RowsWritten(d: Durable, log: seq<ListenEvent>, changes: seq<Change>, rows: seq<Change>)
    requires Written(d, log, changes)
    ensures forall q, next :: Written(Durable(ApplyAll(d.cache, rows), q, next), log, changes + rows)
  {
    AppliedInParts(EMPTY_CACHE, changes, rows);
  }

  /** Some event of the stream brought the message, in this version or a later
      one, or its deletion. */
  ghost predicate Brought(log: seq<ListenEvent>, chat: int, x: Item) {
    exists e :: e in log && KeyOf(e) == MessageKey(chat, x.id)
      && match EffectOn(Live(e), KeyOf(e))
         case Shows(content) => Newer(content, x.content)
         case DeletesRow => true
         case _ => false
  }

  /** The stream left nothing out below the highest id it brought. */
  ghost predicate Gapless(log: seq<ListenEvent>, chat: int, history: seq<Item>, start: int) {
    forall m, x | m in log && m.chat == chat && x in history && x.kind.Ordinary? && start < x.id <= m.message ::
      Brought(log, chat, x)
  }

  lemma BroughtIsHeld(d: Durable, log: seq<ListenEvent>, chat: int, x: Item)
    requires Logged(d, log) && Brought(log, chat, x)
    ensures Holds(d.cache, chat, x)
  {
    var e :| e in log && KeyOf(e) == MessageKey(chat, x.id)
      && match EffectOn(Live(e), KeyOf(e))
         case Shows(content) => Newer(content, x.content)
         case DeletesRow => true
         case _ => false;
    assert Settled(d.cache, e);
    var k := KeyOf(e);
    if EffectOn(Live(e), k).Shows? && !d.cache.messages[k].deleted {
      NewerIsTransitive(d.cache.messages[k].content, EffectOn(Live(e), k).content, x.content);
    }
  }

  /** The checkpoint is the one of the catch-up, or the id of an event of the chat. */
  ghost predicate Reached(log: seq<ListenEvent>, chat: int, start: int, id: int, source: Option<ListenEvent>) {
    id >= start && match source
                   case None => id == start
                   case Some(e) => e in log && e.chat == chat && e.message == id
  }

  /** What was taken out of the queue lies below the stored checkpoint. */
  ghost predicate Handled(acked: seq<ListenEvent>, log: seq<ListenEvent>, chat: int, stored: int) {
    forall e | e in acked :: e in log && (e.chat == chat ==> e.message <= stored)
  }

  predicate Doubling(pauses: seq<int>, maxDelay: int) {
    forall n | 0 <= n < |pauses| :: pauses[n] == Delay(maxDelay, n)
  }

  lemma PauseAdded(pauses: seq<int>, maxDelay: int)
    requires Doubling(pauses, maxDelay)
    ensures Doubling(pauses + [Delay(maxDelay, |pauses|)], maxDelay)
  {
  }

  datatype Heard = Delivered(id: nat, event: ListenEvent) | Broken | Interrupted

  datatype Progress = Going | Finished | Ended

  datatype Attempt = Opened | Refused | GivenUp

  class Follower {
    const chat: int
    const once: bool
    const maxDelay: int
    const calm: bool              // nothing fails, nobody else acts, nobody interrupts
    const start: int              // the checkpoint the catch-up left
    ghost const base: Cache       // the cache it left
    var db: Durable
    var stored: int               // the checkpoint row
    var checkpoint: int           // the copy in memory, ahead of the row between two statements
    const consumer: Consumer
    var backoff: int
    var events: nat
    ghost var log: seq<ListenEvent>    // every event committed so far
    ghost var changes: seq<Change>     // everything ever written to the cache, by anybody
    ghost var acked: seq<ListenEvent>  // those this process acknowledged
    ghost var storedFrom: Option<ListenEvent>      // the event whose id the row holds
    ghost var checkpointFrom: Option<ListenEvent>  // and the copy
    ghost var pauses: seq<seq<int>>    // by outage

    constructor (chat: int, once: bool, backoffMax: int, calm: bool, db: Durable, start: int,
                 ghost log: seq<ListenEvent>, ghost changes: seq<Change>)
      requires Logged(db, log) && Written(db, log, changes) && start >= 0
      ensures Valid() && Paced() && fresh(consumer)
      ensures this.chat == chat && this.once == once && this.calm == calm && this.db == db && this.log == log && this.changes == changes
      ensures this.start == start && stored == start && base == db.cache && events == 0 && acked == [] && pauses == []
      ensures maxDelay == if backoffMax <= 0 then DEFAULT_MAX_DELAY else backoffMax
    {
      this.chat, this.once, this.calm, this.start := chat, once, calm, start;
      maxDelay := if backoffMax <= 0 then DEFAULT_MAX_DELAY else backoffMax;
      this.db, stored, checkpoint, base := db, start, start, db.cache;
      consumer := new Consumer();
      events, this.log, this.changes, acked, pauses := 0, log, changes, [], [];
      storedFrom, checkpointFrom := None, None;
      backoff := Min(FIRST_DELAY, if backoffMax <= 0 then DEFAULT_MAX_DELAY else backoffMax);
    }

    /** Holds between any two statements of the loop. */
    ghost predicate Valid()
      reads this
    {
      && maxDelay > 0 && start >= 0
      && Logged(db, log) && Written(db, log, changes) && Remembers(base, db.cache)
      && Reached(log, chat, start, stored, storedFrom) && Reached(log, chat, start, checkpoint, checkpointFrom)
      && stored <= checkpoint
      && Handled(acked, log, chat, stored) && events == |Own(acked, chat)|
    }

    /** Every outage paused as it should, and the next one will. */
    ghost predicate Paced()
      reads this`pauses, this`backoff
    {
      backoff == Delay(maxDelay, 0) && forall p | p in pauses :: Doubling(p, maxDelay)
    }

    /** What everybody else does to the database while this process is between
        two statements: commit events, merge rows, take events off the queue. */
    method Others()
      requires Valid()
      modifies this`db, this`log, this`changes
      ensures Valid() && old(log) <= log
      ensures calm ==> db == old(db) && log == old(log)
    {
      var arrivals: seq<ListenEvent>, rows: seq<Change>, taken: set<nat> := *, *, *;
      if calm {
        return;
      }
      EventsLogged(db, log, arrivals);
      EventsWritten(db, log, changes, arrivals);
      var d := HandleAll(db, arrivals);
      ChangesRemember(d.cache, rows);
      RowsWritten(d, log + arrivals, changes + LiveChanges(arrivals), rows);
      db := Durable(ApplyAll(d.cache, rows), d.queue - taken, d.next);
      log, changes := log + arrivals, changes + LiveChanges(arrivals) + rows;
    }

    /** The next event; polling goes on until there is one, the connection
        breaks, or the loop has to stop. */
    method Hear() returns (heard: Heard)
      requires Valid()
      modifies this`db, this`log, this`changes, consumer
      ensures Valid() && old(log) <= log && (calm ==> db == old(db))
      ensures heard.Delivered? ==>
        && IsOldest(db.queue, heard.id) && db.queue[heard.id] == Event(heard.event) && consumer.lastEvent == heard.id
      ensures calm && AllEvents(db.queue) && db.queue != map[] ==> heard.Delivered?
      ensures calm && HeadIsMalformed(db.queue) ==> heard.Broken?
    {
      Others();
      var broken, stopped: bool := *, *;
      if broken && !calm {
        return if stopped then Heard.Interrupted else Broken;
      }
      var next := consumer.ListenOnce(db);
      match next
      case Some(pair) => return Delivered(pair.0, pair.1);
      case None => return if stopped && db.queue == map[] then Heard.Interrupted else Broken;
    }

    method Acknowledge(id: nat, e: ListenEvent) returns (ok: bool)
      requires Valid() && e in log && (e.chat == chat ==> e.message <= stored) && id != 0
      modifies this`db, this`acked, this`events, consumer
      ensures Valid()
      ensures ok ==> db == old(db).(queue := old(db).queue - {id}) && acked == old(acked) + [e]
      ensures !ok ==> db == old(db) && acked == old(acked) && events == old(events)
      ensures calm && old(consumer.lastEvent) == id ==> ok
    {
      var broken: bool := *;
      var d;
      d, ok := consumer.AcknowledgeEvent(db, id, broken && !calm);
      if ok {
        db, acked := d, acked + [e];
        if e.chat == chat {
          events := events + 1;
        }
        assert acked[..|acked| - 1] == old(acked);
      }
    }

    /** The checkpoint row follows the copy in memory, or an error ends the loop
        and may hide that it did. */
    method SaveCheckpoint(e: ListenEvent) returns (ok: bool)
      requires Valid() && e in log && e.chat == chat
      modifies this`checkpoint, this`stored, this`checkpointFrom, this`storedFrom
      ensures Valid() && old(stored) <= stored
      ensures checkpoint == Max(old(checkpoint), e.message) && (stored == old(stored) || stored == checkpoint)
      ensures ok ==> stored == checkpoint
      ensures calm ==> ok
    {
      var unsaved, hidden: bool := *, *;
      if e.message > checkpoint {
        checkpoint, checkpointFrom := e.message, Some(e);
      }
      ok := calm || !unsaved;
      if ok || hidden {
        stored, storedFrom := checkpoint, checkpointFrom;
      }
    }

    /** One delivered event. The row is saved before the acknowledgement, so an
        interruption between any two statements only causes a redelivery. */
    method Advance(id: nat, e: ListenEvent) returns (p: Progress)
      requires Valid() && e in log && id != 0
      modifies this`db, this`log, this`changes, this`checkpoint, this`stored, this`checkpointFrom, this`storedFrom, this`acked, this`events, consumer
      ensures Valid() && old(log) <= log && old(stored) <= stored
      ensures e.chat != chat ==> stored == old(stored) && events == old(events) && checkpoint == old(checkpoint)
      ensures e.chat == chat ==> checkpoint == Max(old(checkpoint), e.message) && (stored == old(stored) || stored == checkpoint)
      ensures !p.Ended? ==> acked == old(acked) + [e] && id !in db.queue
      ensures !p.Ended? ==> (e.chat == chat ==> stored == checkpoint) && (p.Finished? <==> once && e.chat == chat)
      ensures p.Ended? ==> acked == old(acked)
      ensures calm && old(consumer.lastEvent) == id ==>
        && db == old(db).(queue := old(db).queue - {id})
        && acked == old(acked) + [e]
        && stored == (if e.chat == chat then Max(old(checkpoint), e.message) else old(stored))
        && p == (if e.chat == chat && once then Finished else Going)
    {
      if e.chat == chat {
        var saved := SaveCheckpoint(e);
        if !saved {
          return Ended;
        }
      }
      Others();
      var killed: bool := *;
      if killed && !calm {
        return Ended;
      }
      var ok := Acknowledge(id, e);
      p := if !ok then Ended else if e.chat == chat && once then Finished else Going;
    }

    /** One attempt to open a new client. */
    method Reopen() returns (attempt: Attempt)
      requires Valid()
      modifies this`db, this`log, this`changes, consumer
      ensures Valid() && old(log) <= log && (calm ==> db == old(db))
      ensures calm ==> attempt.Opened?
      ensures attempt.Opened? ==> consumer.lastEvent == 0
    {
      Others();
      var refused, stop, none: bool := *, *, *;
      if refused && !calm {
        return if stop then GivenUp else Refused;
      }
      if none && !calm {
        return GivenUp;
      }
      consumer.Reopen();
      return Opened;
    }

    /** Pause, try to open a new client, and again, for at most the given number of
        times before the user interrupts. */
    method Retry(patience: nat) returns (rest: nat, attempt: Attempt, ghost p: seq<int>)
      requires Valid() && backoff == Delay(maxDelay, 0)
      modifies this`db, this`log, this`changes, this`backoff, consumer
      ensures Valid() && old(log) <= log && (calm ==> db == old(db))
      ensures rest <= patience && |p| == patience - rest && Doubling(p, maxDelay)
      ensures attempt == Opened ==> rest < patience && consumer.lastEvent == 0
      ensures calm && patience > 0 ==> attempt == Opened && rest == patience - 1
    {
      rest, attempt, p := patience, Refused, [];
      while rest > 0 && attempt == Refused
        invariant Valid() && old(log) <= log && (calm ==> db == old(db))
        invariant 0 <= rest <= patience && |p| == patience - rest && Doubling(p, maxDelay)
        invariant attempt == Refused ==> backoff == Delay(maxDelay, |p|)
        invariant attempt == Opened ==> rest < patience && consumer.lastEvent == 0
        invariant calm ==> if attempt == Refused then rest == patience else attempt == Opened && rest == patience - 1
      {
        PauseAdded(p, maxDelay);
        rest, p := rest - 1, p + [backoff];
        attempt := Reopen();
        if attempt == Refused {
          backoff := Min(backoff * 2, maxDelay);
        }
      }
    }

    /** One outage. */
    method Reconnect(patience: nat) returns (rest: nat, back: bool)
      requires Valid() && Paced()
      modifies this`db, this`log, this`changes, this`backoff, this`pauses, consumer
      ensures Valid() && old(log) <= log && (calm ==> db == old(db))
      ensures rest <= patience && (back ==> Paced() && rest < patience && consumer.lastEvent == 0)
      ensures calm && patience > 0 ==> back && rest == patience - 1
      ensures exists p :: pauses == old(pauses) + [p] && |p| == patience - rest && Doubling(p, maxDelay)
    {
      var attempt;
      ghost var p;
      rest, attempt, p := Retry(patience);
      back := attempt == Opened;
      if back {
        backoff := Min(FIRST_DELAY, maxDelay);
      }
      pauses := pauses + [p];
      assert forall q | q in pauses :: q in old(pauses) || q == p;
    }

    /** One pass of the loop. */
    method Turn(patience: nat) returns (rest: nat, p: Progress, ghost id: nat)
      requires Valid() && Paced() && patience > 0
      modifies this, consumer
      ensures Valid() && old(log) <= log && old(stored) <= stored && rest < patience
      ensures p.Going? ==> Paced()
      ensures events <= old(events) + 1 && (once && p.Going? ==> events == old(events))
      // undisturbed, it takes the oldest event, saves the checkpoint and acknowledges
      ensures calm && AllEvents(old(db).queue) && old(db).queue != map[] ==>
        && rest == patience - 1 && IsOldest(old(db).queue, id) && db == old(db).(queue := old(db).queue - {id})
        && var e := old(db).queue[id].event;
        && acked == old(acked) + [e]
        && stored == (if e.chat == chat then Max(old(checkpoint), e.message) else old(stored))
        && p == (if e.chat == chat && once then Finished else Going)
      ensures calm && old(db).queue == map[] ==> db == old(db) && acked == old(acked)
      // an event nobody can read breaks the connection, which is opened again
      ensures calm && HeadIsMalformed(old(db).queue) && patience > 1 ==>
        p.Going? && rest == patience - 2 && db == old(db) && acked == old(acked)
    {
      rest, id := patience - 1, 0;
      var heard := Hear();
      if heard.Delivered? {
        id := heard.id;
        p := Deliver(heard.id, heard.event);
      } else {
        rest, p := Lose(rest, heard.Broken?);
      }
    }

    /** An event came, so the next outage starts with the shortest pause. */
    method Deliver(id: nat, e: ListenEvent) returns (p: Progress)
      requires Valid() && Paced() && e in log && id != 0
      modifies this, consumer
      ensures Valid() && Paced() && old(log) <= log && old(stored) <= stored
      ensures events <= old(events) + 1 && (once && p.Going? ==> events == old(events))
      ensures calm && old(consumer.lastEvent) == id ==>
        && db == old(db).(queue := old(db).queue - {id})
        && acked == old(acked) + [e]
        && stored == (if e.chat == chat then Max(old(checkpoint), e.message) else old(stored))
        && p == (if e.chat == chat && once then Finished else Going)
    {
      backoff := Min(FIRST_DELAY, maxDelay);
      p := Advance(id, e);
    }

    /** No event came: a broken connection is opened again, the rest ends the loop. */
    method Lose(patience: nat, broken: bool) returns (rest: nat, p: Progress)
      requires Valid() && Paced()
      modifies this`db, this`log, this`changes, this`backoff, this`pauses, consumer
      ensures Valid() && old(log) <= log && (calm ==> db == old(db))
      ensures rest <= patience && (p.Going? ==> Paced()) && !p.Finished?
      ensures p.Going? ==> broken && consumer.lastEvent == 0
      ensures calm && broken && patience > 0 ==> p.Going? && rest == patience - 1
      ensures !broken ==> rest == patience && pauses == old(pauses)
    {
      rest, p := patience, Ended;
      if broken {
        var back;
        rest, back := Reconnect(rest);
        if back {
          p := Going;
        }
      }
    }

    /** The whole loop, interrupted after any number of steps. */
    method Follow(patience: nat)
      requires Valid() && Paced()
      modifies this, consumer
      ensures Valid() && old(log) <= log && old(stored) <= stored
      ensures once ==> events <= old(events) + 1
      // undisturbed, it empties the queue as far as its patience goes
      ensures calm && !once && AllEvents(old(db).queue) ==>
        Emptied(db.queue, |acked|, |old(db).queue|, |old(acked)|, patience)
    {
      var rest: nat := patience;
      ghost var was, had := |db.queue|, |acked|;
      ghost var undisturbed := calm && !once && AllEvents(db.queue);
      while rest > 0
        invariant Valid() && Paced() && old(log) <= log && old(stored) <= stored
        invariant rest <= patience && (once ==> events == old(events))
        invariant undisturbed ==> Emptied(db.queue, |acked|, was, had, patience - rest)
      {
        var p;
        ghost var id, q, a, spent := 0, db.queue, |acked|, patience - rest;
        rest, p, id := Turn(rest);
        if undisturbed {
          EmptiedMore(q, a, was, had, spent, db.queue, |acked|, patience - rest, id);
        }
        if !p.Going? {
          assert undisturbed ==> q == map[];
          return;
        }
      }
    }
  }

  /** So many turns have emptied the queue as far as they go, and acknowledged what left. */
  predicate Emptied(q: map<nat, Payload>, acked: nat, was: nat, had: nat, turns: nat) {
    AllEvents(q) && |q| == (if turns < was then was - turns else 0) && acked == had + was - |q|
  }

  lemma EmptiedMore(q: map<nat, Payload>, acked: nat, was: nat, had: nat, turns: nat,
                    q': map<nat, Payload>, acked': nat, turns': nat, id: nat)
    requires Emptied(q, acked, was, had, turns) && turns < turns'
    requires q == map[] ==> q' == q && acked' == acked
    requires q != map[] ==> id in q && q' == q - {id} && acked' == acked + 1 && turns' == turns + 1
    ensures Emptied(q', acked', was, had, turns')
    ensures q == map[] ==> forall more | more >= turns' :: Emptied(q', acked', was, had, more)
  {
    if q != map[] {
      assert q'.Keys == q.Keys - {id};
      assert |q'.Keys| == |q'| && |q.Keys| == |q|;
    }
  }

  ghost predicate HeadIsMalformed(q: map<nat, Payload>) {
    exists id :: IsOldest(q, id) && q[id].Malformed?
  }

  predicate AllEvents(q: map<nat, Payload>) {
    forall id | id in q :: q[id].Event?
  }

  /** FOLLOWING KEEPS COVERAGE. At every point of the loop, whatever the others
      do, the stored checkpoint is no higher than what is covered, provided the
      update stream left nothing out. */
  lemma FollowCovers(f: Follower, history: seq<Item>, after: int)
    requires f.Valid() && Covered(f.base, f.chat, history, after, f.start)
    requires Gapless(f.log, f.chat, history, f.start)
    ensures Covered(f.db.cache, f.chat, history, after, f.stored)
  {
    forall x | x in history && x.kind.Ordinary? && after < x.id <= f.stored ensures Holds(f.db.cache, f.chat, x) {
      if x.id <= f.start {
        assert Holds(f.base, f.chat, x);
      } else {
        assert f.storedFrom.value in f.log;
        BroughtIsHeld(f.db, f.log, f.chat, x);
      }
    }
  }

  /** Some changes hold the message: they delete it, or show this or a later version. */
  ghost predicate Accounted(changes: seq<Change>, k: MessageKey, x: Content) {
    || Has(changes, k, DeletesRow)
    || (HasContent(changes, k) && Has(changes, k, DeletesCommon))
    || exists ch :: ch in changes && EffectOn(ch, k).Shows? && Newer(EffectOn(ch, k).content, x)
  }

  /** A cache covers a stretch of the history exactly if the changes it was made
      of account for every message there, in whatever order they came. */
  lemma CoveredExactly(changes: seq<Change>, chat: int, history: seq<Item>, after: int, upTo: int)
    ensures Covered(ApplyAll(EMPTY_CACHE, changes), chat, history, after, upTo)
      <==> forall x | x in history && x.kind.Ordinary? && after < x.id <= upTo ::
             Accounted(changes, MessageKey(chat, x.id), x.content)
  {
    forall x: Item ensures Holds(ApplyAll(EMPTY_CACHE, changes), chat, x) <==> Accounted(changes, MessageKey(chat, x.id), x.content) {
      HeldExactly(changes, chat, x);
    }
  }

  lemma HeldExactly(changes: seq<Change>, chat: int, x: Item)
    ensures Holds(ApplyAll(EMPTY_CACHE, changes), chat, x) <==> Accounted(changes, MessageKey(chat, x.id), x.content)
  {
    var c, k := ApplyAll(EMPTY_CACHE, changes), MessageKey(chat, x.id);
    CacheExplained(changes, k);
    if k in c.messages && !c.messages[k].deleted {
      var best :| best in changes && EffectOn(best, k).Shows? && ViewOf(EffectOn(best, k).content) == ViewOf(c.messages[k].content)
        && forall other | other in changes && EffectOn(other, k).Shows? ::
             Newer(EffectOn(best, k).content, EffectOn(other, k).content);
      forall ch | ch in changes && EffectOn(ch, k).Shows? && Newer(EffectOn(ch, k).content, x.content)
        ensures Newer(EffectOn(best, k).content, x.content)
      {
        NewerIsTransitive(EffectOn(best, k).content, EffectOn(ch, k).content, x.content);
      }
    }
  }

  /** FOLLOWING COVERS EXACTLY. At every point of the loop, what lies above the
      catch-up's checkpoint is covered up to the stored one if and only if the
      changes anybody made account for every message there. */
  lemma FollowCoversExactly(f: Follower, history: seq<Item>, after: int)
    requires f.Valid() && Covered(f.base, f.chat, history, after, f.start)
    ensures Covered(f.db.cache, f.chat, history, after, f.stored)
      <==> forall x | x in history && x.kind.Ordinary? && after < x.id && f.start < x.id <= f.stored ::
             Accounted(f.changes, MessageKey(f.chat, x.id), x.content)
  {
    forall x | x in history && x.kind.Ordinary? && after < x.id <= f.stored
      ensures Holds(f.db.cache, f.chat, x)
        <==> x.id <= f.start || Accounted(f.changes, MessageKey(f.chat, x.id), x.content)
    {
      HeldExactly(f.changes, f.chat, x);
      if x.id <= f.start {
        assert Holds(f.base, f.chat, x);
      }
    }
  }

  /** A message below the stored checkpoint that nobody ever wrote about stays
      missing: nothing is covered past it. */
  lemma GapStaysOpen(f: Follower, history: seq<Item>, after: int, x: Item)
    requires f.Valid() && x in history && x.kind.Ordinary? && after < x.id <= f.stored
    requires forall ch | ch in f.changes :: EffectOn(ch, MessageKey(f.chat, x.id)).Nothing?
    ensures !Covered(f.db.cache, f.chat, history, after, f.stored)
  {
    HeldExactly(f.changes, f.chat, x);
  }

  /** Message 7 comes over the stream, message 6 was skipped. */
  function Skipping(chat: int): ListenEvent {
    ListenEvent(OtherUpdate, chat, 7, false, 0, NO_CONTENT)
  }

  const TWO_MESSAGES := [Item(7, Ordinary, NO_CONTENT), Item(6, Ordinary, NO_CONTENT)]

  const NOTHING_QUEUED := Durable(EMPTY_CACHE, map[], 1)

  lemma SkippedIsQueued(chat: int)
    requires chat != 0
    ensures var d := HandleEvent(NOTHING_QUEUED, Skipping(chat));
      && d.queue == map[1 := Event(Skipping(chat))]
      && Logged(d, [Skipping(chat)]) && Written(d, [Skipping(chat)], [Live(Skipping(chat))])
      && Covered(d.cache, chat, TWO_MESSAGES, 0, 5) && !Covered(d.cache, chat, TWO_MESSAGES, 0, 7)
  {
    EventLogged(NOTHING_QUEUED, [], Skipping(chat));
    assert [] + [Skipping(chat)] == [Skipping(chat)];
    assert [Live(Skipping(chat))][..0] == [];
    assert ApplyAll(EMPTY_CACHE, [Live(Skipping(chat))]) == Apply(EMPTY_CACHE, Live(Skipping(chat)));
    assert !Holds(HandleEvent(NOTHING_QUEUED, Skipping(chat)).cache, chat, TWO_MESSAGES[1]);
  }

  /** A stream that skips a message takes the checkpoint over it: message 6 is
      never fetched again. */
  method FollowingPassesAGap(chat: int) returns (f: Follower)
    requires chat != 0
    ensures f.Valid() && f.start == 5 && f.stored == 7
    ensures Covered(f.base, chat, TWO_MESSAGES, 0, f.start) && !Covered(f.db.cache, chat, TWO_MESSAGES, 0, f.stored)
  {
    SkippedIsQueued(chat);
    var d := HandleEvent(NOTHING_QUEUED, Skipping(chat));
    f := new Follower(chat, true, 0, true, d, 5, [Skipping(chat)], [Live(Skipping(chat))]);
    assert IsOldest(f.db.queue, 1);
    var _, _, _ := f.Turn(1);
  }

  /** The events of one chat. */
  function Own(es: seq<ListenEvent>, chat: int): seq<ListenEvent> {
    if es == [] then []
    else Own(es[..|es| - 1], chat) + if es[|es| - 1].chat == chat then [es[|es| - 1]] else []
  }
}
