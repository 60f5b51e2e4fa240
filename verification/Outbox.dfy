/** The durable event outbox over whole runs: transactions that queue, consumers
    that crash, and the three ways an event may leave. */
module Outbox {
  import opened Wrappers
  import opened MessageCache

  /** A stored payload; rows that are not JSON events are kept for diagnosis. */
  datatype Payload = Event(event: ListenEvent) | Malformed(bytes: string)

  /** AUTOINCREMENT: next is above every id ever used. */
  datatype Durable = Durable(cache: Cache, queue: map<nat, Payload>, next: nat)

  /** Content is withheld once the cache has refused the message. */
  predicate IsContent(e: ListenEvent) {
    e.chat != 0 && e.message != 0 && !e.deleted && !e.kind.ExpiringMessage?
  }

  predicate About(p: Payload, k: MessageKey) {
    p.Event? && KeyOf(p.event) == k
  }

  predicate TombstonedAt(c: Cache, k: MessageKey) {
    k in c.messages && c.messages[k].deleted
  }

  /** Expiry also drops every pending delivery about the same message. */
  function PurgeIfExpiring(q: map<nat, Payload>, e: ListenEvent): map<nat, Payload> {
    if e.kind.ExpiringMessage? then map id | id in q && !About(q[id], KeyOf(e)) :: q[id] else q
  }

  /** One event of a transaction: persist, then queue unless refused. */
  function HandleEvent(d: Durable, e: ListenEvent): Durable {
    var cache := Persist(d.cache, e);
    var queue := PurgeIfExpiring(d.queue, e);
    if IsContent(e) && TombstonedAt(cache, KeyOf(e)) then Durable(cache, queue, d.next)
    else Durable(cache, queue[d.next := Event(e)], d.next + 1)
  }

  function HandleAll(d: Durable, es: seq<ListenEvent>): Durable {
    if es == [] then d else HandleEvent(HandleAll(d, es[..|es| - 1]), es[|es| - 1])
  }

  /** The oldest pending row. */
  predicate IsOldest(q: map<nat, Payload>, id: nat) {
    id in q && forall other | other in q :: id <= other
  }

  datatype Removal = AckedAfterDelivery | ByReceipt(payload: Payload) | PurgedByExpiry(k: MessageKey)

  lemma {:induction false} OldestExists(q: map<nat, Payload>) returns (id: nat)
    requires q != map[]
    ensures IsOldest(q, id)
    decreases |q|
  {
    var some :| some in q;
    var rest := q - {some};
    if rest == map[] {
      assert q.Keys == {some} + rest.Keys;
      id := some;
    } else {
      var best := OldestExists(rest);
      id := if some < best then some else best;
      assert forall other | other in q :: other == some || other in rest;
    }
  }

  /** Deletions, expiries and events about no particular message carry nothing
      that a tombstone could forbid. */
  predicate IsNotice(e: ListenEvent) {
    e.deleted || e.kind.ExpiringMessage? || e.chat == 0 || e.message == 0
  }

  /** Whether the event has to reach the consumers: a notice always, anything
      else unless its message is deleted by then. */
  predicate MustPass(e: ListenEvent, c: Cache) {
    IsNotice(e) || KeyOf(e) !in c.messages || !c.messages[KeyOf(e)].deleted
  }

  /** EXACTLY QUEUED. The event is queued behind everything else exactly if it has
      to pass, and of the pending rows just those go that an expiry is about. */
  lemma QueuedExactly(d: Durable, e: ListenEvent)
    requires forall id | id in d.queue :: id < d.next
    ensures var d' := HandleEvent(d, e);
      && d'.cache == Persist(d.cache, e)
      && (d.next in d'.queue <==> MustPass(e, Persist(d.cache, e)))
      && (d.next in d'.queue ==> d'.queue[d.next] == Event(e) && d'.next == d.next + 1)
      && (d.next !in d'.queue ==> d'.next == d.next)
      && (forall id | id != d.next ::
            (id in d'.queue <==> id in d.queue && !(e.kind.ExpiringMessage? && d.queue[id].Event?
                                                    && d.queue[id].event.chat == e.chat && d.queue[id].event.message == e.message))
            && (id in d'.queue ==> d'.queue[id] == d.queue[id]))
  {
  }

  /** The database, each consumer's last delivered id, and the ghost history. */
  datatype System = System(
    d: Durable, last: map<nat, nat>,
    queued: map<nat, Payload>,          // every event ever committed to the outbox
    delivered: seq<nat>,                // ids handed to consumers, in order
    removed: map<nat, Removal>,
    expired: set<MessageKey>)

  datatype Step =
    | Transaction(e: ListenEvent)                 // the events of an update, one by one; that only adds interleavings
    | CacheWrite(change: Change)                  // backfill or sync
    | Deliver(consumer: nat, id: nat)
    | Acknowledge(consumer: nat, id: nat)
    | AcknowledgeReceipt(id: nat, payload: Payload)
    | ConsumerCrash(consumer: nat)

  ghost predicate Next(s: System, step: Step, s': System) {
    match step
    case Transaction(e) =>
      var d := HandleEvent(s.d, e);
      && s'.d == d && s'.last == s.last && s'.delivered == s.delivered
      && s'.queued == (if d.next > s.d.next then s.queued[s.d.next := Event(e)] else s.queued)
      && s'.removed == s.removed + (map id | id in s.d.queue && id !in d.queue :: PurgedByExpiry(KeyOf(e)))
      && s'.expired == (if e.kind.ExpiringMessage? then s.expired + {KeyOf(e)} else s.expired)
    case CacheWrite(ch) => !ch.Live? && s' == s.(d := s.d.(cache := Apply(s.d.cache, ch)))
    case Deliver(c, id) =>
      IsOldest(s.d.queue, id) && s.d.queue[id].Event? && s' == s.(last := s.last[c := id], delivered := s.delivered + [id])
    case Acknowledge(c, id) =>
      // DELETE ... WHERE id succeeds whether or not the row is still there
      && c in s.last && s.last[c] == id && id != 0
      && s' == s.(d := s.d.(queue := s.d.queue - {id}), last := s.last[c := 0],
                  removed := if id in s.d.queue then s.removed[id := AckedAfterDelivery] else s.removed)
    case AcknowledgeReceipt(id, payload) =>
      && id in s.d.queue && s.d.queue[id] == payload
      && s' == s.(d := s.d.(queue := s.d.queue - {id}), removed := s.removed[id := ByReceipt(payload)])
    case ConsumerCrash(c) => s' == s.(last := s.last[c := 0])
  }

  ghost predicate Init(s: System) {
    && s.d.cache == EMPTY_CACHE && s.d.queue == map[] && s.d.next == 1
    && s.last == map[] && s.queued == map[] && s.delivered == [] && s.removed == map[] && s.expired == {}
  }

  ghost predicate IsRun(run: seq<System>, steps: seq<Step>) {
    && |run| == |steps| + 1 && Init(run[0])
    && forall i | 0 <= i < |steps| :: Next(run[i], steps[i], run[i + 1])
  }

  /** Why an event that is no longer queued was allowed to leave. */
  ghost predicate Justified(s: System, id: nat)
    requires id in s.queued
  {
    && id in s.removed
    && match s.removed[id]
       case AckedAfterDelivery => id in s.delivered
       case ByReceipt(p) => p == s.queued[id]
       case PurgedByExpiry(k) => About(s.queued[id], k) && k in s.expired
  }

  ghost predicate Inv(s: System) {
    && s.d.next > 0
    && (forall id | id in s.d.queue :: 0 < id < s.d.next && id in s.queued && s.queued[id] == s.d.queue[id])
    && (forall id | id in s.queued :: 0 < id < s.d.next && (id in s.d.queue || Justified(s, id)))
    && (forall id | id in s.removed :: id !in s.d.queue && id in s.queued)
    && (forall c | c in s.last && s.last[c] != 0 :: s.last[c] in s.delivered)
    // deliveries are in order, and nothing below the latest is still queued
    && (forall i, j | 0 <= i <= j < |s.delivered| :: s.delivered[i] <= s.delivered[j])
    && (forall i | 0 <= i < |s.delivered| :: s.delivered[i] < s.d.next)
    && (forall i, id | 0 <= i < |s.delivered| && id in s.d.queue :: s.delivered[i] <= id)
    // an expired message is tombstoned and has no content queued
    && (forall k | k in s.expired :: TombstonedAt(s.d.cache, k))
    && (forall id | id in s.d.queue && s.d.queue[id].Event? && IsContent(s.d.queue[id].event) ::
         KeyOf(s.d.queue[id].event) !in s.expired)
  }

  lemma TransactionJustifies(s: System, e: ListenEvent, s': System, id: nat)
    requires Inv(s) && Next(s, Transaction(e), s') && id in s'.queued && id !in s'.d.queue
    ensures 0 < id < s'.d.next && Justified(s', id)
  {
    if id in s.d.queue {
      assert About(s.d.queue[id], KeyOf(e)) && e.kind.ExpiringMessage?;
      assert s'.removed[id] == PurgedByExpiry(KeyOf(e));
    } else {
      assert id in s.queued && Justified(s, id);
      assert s'.removed[id] == s.removed[id];
    }
  }

  lemma TransactionKeepsQueue(s: System, e: ListenEvent, s': System)
    requires Inv(s) && Next(s, Transaction(e), s')
    ensures s.d.next <= s'.d.next
    ensures forall id | id in s'.d.queue :: 0 < id < s'.d.next && id in s'.queued && s'.queued[id] == s'.d.queue[id]
    ensures forall i, id | 0 <= i < |s'.delivered| && id in s'.d.queue :: s'.delivered[i] <= id
    ensures forall id | id in s'.removed :: id !in s'.d.queue && id in s'.queued
  {
  }

  lemma TransactionQueuesNoExpired(s: System, e: ListenEvent, s': System)
    requires Inv(s) && Next(s, Transaction(e), s')
    ensures forall id | id in s'.d.queue && s'.d.queue[id].Event? && IsContent(s'.d.queue[id].event) ::
              KeyOf(s'.d.queue[id].event) !in s'.expired
  {
  }

  lemma TransactionKeepsInv(s: System, e: ListenEvent, s': System)
    requires Inv(s) && Next(s, Transaction(e), s')
    ensures Inv(s')
  {
    TransactionKeepsQueue(s, e, s');
    TransactionQueuesNoExpired(s, e, s');
    forall k | k in s'.expired ensures TombstonedAt(s'.d.cache, k) {
      if k in s.expired {
        TombstonesStay(s.d.cache, Live(e), k);
      }
    }
    forall id | id in s'.queued ensures 0 < id < s'.d.next && (id in s'.d.queue || Justified(s', id)) {
      if id !in s'.d.queue {
        TransactionJustifies(s, e, s', id);
      }
    }
  }

  lemma CacheWriteKeepsInv(s: System, ch: Change, s': System)
    requires Inv(s) && Next(s, CacheWrite(ch), s')
    ensures Inv(s')
  {
    forall k | k in s.expired ensures TombstonedAt(s'.d.cache, k) {
      TombstonesStay(s.d.cache, ch, k);
    }
    assert forall id | id in s.queued && Justified(s, id) :: Justified(s', id);
  }

  lemma DeliverKeepsInv(s: System, c: nat, id: nat, s': System)
    requires Inv(s) && Next(s, Deliver(c, id), s')
    ensures Inv(s')
  {
    assert s'.delivered[|s.delivered|] == id;
    assert forall x | x in s.delivered :: x in s'.delivered;
    assert forall x | x in s.queued && Justified(s, x) :: Justified(s', x);
  }

  lemma RemovalKeepsInv(s: System, id: nat, why: Removal, s': System)
    requires Inv(s) && id in s.d.queue
    requires s'.d == s.d.(queue := s.d.queue - {id}) && s'.removed == s.removed[id := why]
    requires s'.queued == s.queued && s'.delivered == s.delivered && s'.expired == s.expired
    requires forall c | c in s'.last && s'.last[c] != 0 :: c in s.last && s'.last[c] == s.last[c]
    requires Justified(s', id)
    ensures Inv(s')
  {
    assert forall x | x in s.queued && x != id && Justified(s, x) :: Justified(s', x);
  }

  lemma StepKeepsInv(s: System, step: Step, s': System)
    requires Inv(s) && Next(s, step, s')
    ensures Inv(s')
  {
    match step
    case Transaction(e) => TransactionKeepsInv(s, e, s');
    case CacheWrite(ch) => CacheWriteKeepsInv(s, ch, s');
    case Deliver(c, id) => DeliverKeepsInv(s, c, id, s');
    case Acknowledge(c, id) =>
      if id in s.d.queue {
        RemovalKeepsInv(s, id, AckedAfterDelivery, s');
      } else {
        assert s.d.queue - {id} == s.d.queue;
        assert forall x | x in s.queued && Justified(s, x) :: Justified(s', x);
      }
    case AcknowledgeReceipt(id, p) => RemovalKeepsInv(s, id, ByReceipt(p), s');
    case ConsumerCrash(c) =>
      assert forall x | x in s.queued && Justified(s, x) :: Justified(s', x);
  }

  lemma {:induction false} RunKeepsInv(run: seq<System>, steps: seq<Step>, i: nat)
    requires IsRun(run, steps) && i < |run|
    ensures Inv(run[i])
  {
    if i > 0 {
      RunKeepsInv(run, steps, i - 1);
      StepKeepsInv(run[i - 1], steps[i - 1], run[i]);
    }
  }

  /** AT LEAST ONCE. At every point of every run, each event ever committed to
      the outbox is still queued, or was delivered before the acknowledgement
      that removed it, or was removed by a receipt for exactly its payload, or
      was purged because its own message expired. */
  lemma NoEventLostSilently(run: seq<System>, steps: seq<Step>, i: nat, id: nat)
    requires IsRun(run, steps) && i < |run| && id in run[i].queued
    ensures (id in run[i].d.queue && run[i].d.queue[id] == run[i].queued[id]) || Justified(run[i], id)
  {
    RunKeepsInv(run, steps, i);
  }

  /** Over runs: every transaction adds its event to what was ever queued, and
      makes it pending, exactly if it has to pass. */
  lemma TransactionQueues(run: seq<System>, steps: seq<Step>, i: nat, e: ListenEvent)
    requires IsRun(run, steps) && i < |steps| && steps[i] == Transaction(e)
    ensures var id := run[i].d.next;
      && id !in run[i].queued
      && (MustPass(e, run[i + 1].d.cache) ==>
            && id in run[i + 1].d.queue && run[i + 1].d.queue[id] == Event(e)
            && run[i + 1].queued == run[i].queued[id := Event(e)])
      && (!MustPass(e, run[i + 1].d.cache) ==> id !in run[i + 1].d.queue && run[i + 1].queued == run[i].queued)
  {
    assert Next(run[i], steps[i], run[i + 1]);
    RunKeepsInv(run, steps, i);
    QueuedExactly(run[i].d, e);
  }

  /** IN ORDER. Delivered ids never decrease. */
  lemma DeliveriesInOrder(run: seq<System>, steps: seq<Step>, i: nat, m: nat, n: nat)
    requires IsRun(run, steps) && i < |run| && m <= n < |run[i].delivered|
    ensures run[i].delivered[m] <= run[i].delivered[n]
  {
    RunKeepsInv(run, steps, i);
  }

  lemma {:induction false} ExpiredGrows(run: seq<System>, steps: seq<Step>, i: nat, j: nat)
    requires IsRun(run, steps) && i <= j < |run|
    ensures run[i].expired <= run[j].expired
  {
    if i < j {
      ExpiredGrows(run, steps, i, j - 1);
      assert Next(run[j - 1], steps[j - 1], run[j]);
    }
  }

  /** EXPIRY. Once a transaction with the expiry of a message has committed, no
      content of that message is queued at any later point of the run, so none
      is delivered. */
  lemma NoContentAfterExpiry(run: seq<System>, steps: seq<Step>, i: nat, j: nat, e: ListenEvent, id: nat)
    requires IsRun(run, steps) && i < j < |run| && steps[i] == Transaction(e) && e.kind.ExpiringMessage?
    requires id in run[j].d.queue && run[j].d.queue[id].Event? && IsContent(run[j].d.queue[id].event)
    ensures KeyOf(run[j].d.queue[id].event) != KeyOf(e)
  {
    assert Next(run[i], steps[i], run[i + 1]);
    ExpiredGrows(run, steps, i + 1, j);
    RunKeepsInv(run, steps, j);
  }
}
