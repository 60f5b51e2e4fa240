/** The tg_idempotency table: the SQL statements as functions on its rows, and
    the operations built from them. */
module Idempotency {
  import opened Wrappers

  type Key = string
  type RequestId = nat
  type Data = string
  datatype Target = Target(chatId: int, slot: string, value: string)

  /** result_json: a reservation marker, or the recorded success envelope. */
  datatype Envelope =
    | Pending(reservedFor: string)
    | Done(fingerprint: Option<string>, target: Option<Target>, data: Data)

  datatype Row = Row(command: string, requestId: RequestId, envelope: Envelope)

  type Table = map<Key, Row>

  /** INSERT fails on an existing primary key. */
  function Insert(t: Table, k: Key, r: Row): Option<Table> {
    if k in t then None else Some(t[k := r])
  }

  predicate Owns(t: Table, k: Key, command: string, id: RequestId) {
    k in t && t[k].command == command && t[k].requestId == id
  }

  /** UPDATE ... WHERE key AND command AND request_id. */
  function Update(t: Table, k: Key, command: string, id: RequestId, e: Envelope): Table {
    if Owns(t, k, command, id) then t[k := Row(command, id, e)] else t
  }

  /** DELETE ... WHERE key AND command AND request_id AND result_json. */
  function Delete(t: Table, k: Key, command: string, id: RequestId, e: Envelope): (r: Table)
    ensures k in t && t[k].envelope != e ==> r == t  // a marker that changed meanwhile stays
  {
    if Owns(t, k, command, id) && t[k].envelope == e then t - {k} else t
  }

  datatype Found = NoRow | WrongCommand | Hit(envelope: Envelope)

  function Lookup(t: Table, k: Key, command: string): Found {
    if k == "" || k !in t then NoRow
    else if t[k].command != command then WrongCommand
    else Hit(t[k].envelope)
  }

  datatype Reservation = Reserved | Existing(envelope: Envelope) | Refused

  /** The answer of Reserve once its INSERT has failed. */
  function AfterFailedInsert(t: Table, k: Key, command: string, fingerprint: string): Reservation {
    match Lookup(t, k, command)
    case NoRow => Refused
    case WrongCommand => Refused
    case Hit(Pending(f)) => if f != "" && f != fingerprint then Refused else Existing(Pending(f))
    case Hit(Done(f, target, data)) =>
      if f.Some? && f.value != "" && f.value != fingerprint then Refused else Existing(Done(f, target, data))
  }

  /** The table as one connection sees it while nobody else is writing. Every
      statement may also fail, with or without having taken effect. */
  class Store {
    const faultless: bool
    var rows: Table

    constructor (faultless: bool)
      ensures rows == map[] && this.faultless == faultless
    {
      this.faultless, rows := faultless, map[];
    }

    /** A second claimant never disturbs the first. */
    method Reserve(k: Key, command: string, id: RequestId, fingerprint: string) returns (r: Reservation)
      requires k != ""
      modifies this
      ensures r == Reserved ==>
        k !in old(rows) && rows == old(rows)[k := Row(command, id, Pending(fingerprint))]
      ensures r != Reserved ==>
        rows == old(rows) || (k !in old(rows) && rows == old(rows)[k := Row(command, id, Pending(fingerprint))])
      ensures r.Existing? ==>
        Lookup(rows, k, command) == Hit(r.envelope) && r == AfterFailedInsert(rows, k, command, fingerprint)
      // a key taken by another command, or for another fingerprint, is refused
      ensures faultless && k in old(rows) ==>
        match old(rows)[k].envelope
        case Pending(f) => r == if old(rows)[k].command == command && (f == "" || f == fingerprint) then Existing(Pending(f)) else Refused
        case Done(f, target, data) =>
          r == if old(rows)[k].command == command && (f.None? || f.value == "" || f.value == fingerprint)
               then Existing(Done(f, target, data)) else Refused
      ensures faultless ==>
        r == if k !in old(rows) then Reserved else AfterFailedInsert(old(rows), k, command, fingerprint)
    {
      var inserted := Insert(rows, k, Row(command, id, Pending(fingerprint)));
      var reported := false;
      var lost, hidden, unread: bool := *, *, *;
      if inserted.Some? {
        if faultless || !lost {
          rows, reported := inserted.value, true;
        } else if hidden {
          rows := inserted.value;  // took effect, but the error hides it
        }
      }
      if reported {
        return Reserved;
      }
      if unread && !faultless {
        return Refused;  // the lookup failed as well
      }
      return AfterFailedInsert(rows, k, command, fingerprint);
    }

    /** Only the owner's reservation is finalized, and success is reported
        exactly when its envelope is stored. */
    method Finalize(k: Key, command: string, id: RequestId, e: Envelope) returns (ok: bool)
      modifies this
      ensures ok ==> k in rows && Owns(old(rows), k, command, id) && rows == old(rows)[k := Row(command, id, e)]
      ensures !ok ==> rows == old(rows) || rows == Update(old(rows), k, command, id, e)
      ensures k !in old(rows) || old(rows)[k].command != command || old(rows)[k].requestId != id ==> !ok && rows == old(rows)
      ensures faultless ==>
        ok == (k in old(rows) && old(rows)[k].command == command && old(rows)[k].requestId == id)
    {
      var lost, hidden: bool := *, *;
      if lost && !faultless {
        return false;
      }
      var owned := Owns(rows, k, command, id);
      rows := Update(rows, k, command, id, e);
      ok := owned && (faultless || !hidden);
    }

    /** Removes at most the owner's still-pending marker. */
    method Release(k: Key, command: string, id: RequestId)
      modifies this
      ensures rows == old(rows) || (
        Owns(old(rows), k, command, id) && old(rows)[k].envelope.Pending? && rows == old(rows) - {k})
      ensures k in old(rows) && (old(rows)[k].command != command || old(rows)[k].requestId != id) ==> rows == old(rows)
      ensures faultless && k != "" && Owns(old(rows), k, command, id) && old(rows)[k].envelope.Pending? ==> k !in rows
    {
      if k == "" || !Owns(rows, k, command, id) || !rows[k].envelope.Pending? {
        return;
      }
      var lost: bool := *;
      if faultless || !lost {
        rows := Delete(rows, k, command, id, rows[k].envelope);
      }
    }
  }
}
