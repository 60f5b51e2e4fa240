/** The write-ahead ledger around every Telegram mutation. The trace records
    what became durable or left the process, in order; a crash at any moment
    leaves exactly a prefix of it. */
module WriteLedger {
  import opened Wrappers
  import opened RateLimit

  datatype CallId = CallId(request: string, number: nat)

  datatype LedgerState = InPreparation | Accepted | Rejected | Unknown

  /** What came back for a sent request; no answer is a transport failure. */
  datatype Answer = Success | RpcError(code: int) | NoAnswer

  datatype Event =
    | Prepared(id: CallId)                                 // INSERT ... 'prepared'
    | Sent(id: CallId)
    | Answered(id: CallId, answer: Answer, applied: bool)  // applied: what the server really did
    | Finalized(id: CallId, state: LedgerState)            // UPDATE ... SET state

  /** Success was applied, a 4xx refusal was not; otherwise nobody knows. */
  predicate Truthful(a: Answer, applied: bool) {
    && (a.Success? ==> applied)
    && (a.RpcError? && 400 <= a.code < 500 ==> !applied)
  }

  function StateOf(a: Answer): LedgerState {
    match a
    case Success => Accepted
    case RpcError(code) => if 400 <= code < 500 then Rejected else Unknown
    case NoAnswer => Unknown
  }

  /** The server refused the request: any error of the 400 class, 400 included. */
  predicate Refusal(a: Answer) {
    a.RpcError? && a.code >= 400 && a.code <= 499
  }

  /** Accepted for a success, rejected for a refusal, unknown for anything else. */
  predicate Fits(a: Answer, row: LedgerState) {
    && row != InPreparation
    && (row == Accepted <==> a == Success)
    && (row == Rejected <==> Refusal(a))
  }

  /** Any other answer leaves open what the server did. */
  lemma OpenAnswer(a: Answer, applied: bool)
    ensures Truthful(a, applied) <==> (a == Success ==> applied) && (Refusal(a) ==> !applied)
  {
  }

  /** The ledger rows after the durable part of a trace. */
  function Rows(trace: seq<Event>): map<CallId, LedgerState> {
    if trace == [] then map[]
    else
      var before := Rows(trace[..|trace| - 1]);
      match trace[|trace| - 1]
      case Prepared(id) => before[id := InPreparation]
      case Finalized(id, state) => before[id := state]
      case _ => before
  }

  predicate SameKind(a: Event, b: Event) {
    (a.Prepared? && b.Prepared?) || (a.Sent? && b.Sent?) || (a.Answered? && b.Answered?) || (a.Finalized? && b.Finalized?)
  }

  ghost predicate AnsweredAs(trace: seq<Event>, id: CallId, state: LedgerState) {
    exists j :: 0 <= j < |trace| && trace[j].Answered? && trace[j].id == id && StateOf(trace[j].answer) == state
  }

  /** Each kind of event once per call, and none before what it depends on. */
  ghost predicate Appendable(trace: seq<Event>, e: Event) {
    && (forall i | 0 <= i < |trace| && SameKind(trace[i], e) :: trace[i].id != e.id)
    && match e
       case Prepared(_) => true
       case Sent(id) => Prepared(id) in trace
       case Answered(id, answer, applied) => Truthful(answer, applied) && Sent(id) in trace
       case Finalized(id, state) => AnsweredAs(trace, id, state)
  }

  /** Write-ahead, once each, and honest. */
  ghost predicate Sound(trace: seq<Event>) {
    trace == [] || (Sound(trace[..|trace| - 1]) && Appendable(trace[..|trace| - 1], trace[|trace| - 1]))
  }

  /** Soundness at the end is soundness at every crash point. */
  lemma {:induction false} SoundAtEveryCrash(trace: seq<Event>, n: nat)
    requires Sound(trace) && n <= |trace|
    ensures Sound(trace[..n])
    ensures n < |trace| ==> Appendable(trace[..n], trace[n])
    decreases |trace|
  {
    if n < |trace| - 1 {
      SoundAtEveryCrash(trace[..|trace| - 1], n);
      assert trace[..|trace| - 1][..n] == trace[..n];
    } else if n == |trace| {
      assert trace[..n] == trace;
    }
  }

  /** WRITE-AHEAD. A sent mutation has an earlier ledger row, an outcome is
      recorded only after an answer that justifies it, and nothing is repeated. */
  lemma SoundMeans(trace: seq<Event>, i: nat)
    requires Sound(trace) && i < |trace|
    ensures trace[i].Sent? ==> Prepared(trace[i].id) in trace[..i]
    ensures trace[i].Answered? ==> Truthful(trace[i].answer, trace[i].applied) && Sent(trace[i].id) in trace[..i]
    ensures trace[i].Finalized? ==> AnsweredAs(trace[..i], trace[i].id, trace[i].state)
    ensures forall j | 0 <= j < i && SameKind(trace[i], trace[j]) :: trace[i].id != trace[j].id
  {
    SoundAtEveryCrash(trace, i);
    assert forall j | 0 <= j < i :: trace[..i][j] == trace[j];
  }

  ghost predicate FinalizedWith(trace: seq<Event>, id: CallId, state: LedgerState) {
    exists i :: 0 <= i < |trace| && trace[i] == Finalized(id, state)
  }

  lemma {:induction false} PreparedHasRow(trace: seq<Event>, i: nat)
    requires i < |trace| && trace[i].Prepared?
    ensures trace[i].id in Rows(trace)
  {
    var rest := trace[..|trace| - 1];
    if i < |rest| {
      assert rest[i] == trace[i];
      PreparedHasRow(rest, i);
    }
  }

  lemma {:induction false} RowWasFinalized(trace: seq<Event>, id: CallId)
    requires id in Rows(trace) && Rows(trace)[id] != InPreparation
    ensures FinalizedWith(trace, id, Rows(trace)[id])
  {
    var rest, last := trace[..|trace| - 1], trace[|trace| - 1];
    if !(last.Finalized? && last.id == id) {
      RowWasFinalized(rest, id);
      var i :| 0 <= i < |rest| && rest[i] == Finalized(id, Rows(trace)[id]);
      assert trace[i] == rest[i];
    }
  }

  /** The server's real answer to a request, if one came back. */
  ghost predicate Decided(trace: seq<Event>, id: CallId, applied: bool) {
    exists j :: 0 <= j < |trace| && trace[j].Answered? && trace[j].id == id && trace[j].applied == applied
  }

  /** The answer that a row was decided by. */
  ghost predicate DecidedBy(trace: seq<Event>, id: CallId, row: LedgerState) {
    exists j :: 0 <= j < |trace| && trace[j].Answered? && trace[j].id == id && Fits(trace[j].answer, row)
  }

  lemma FinalRowTellsTheTruth(trace: seq<Event>, id: CallId)
    requires Sound(trace) && id in Rows(trace)
    ensures Rows(trace)[id] != InPreparation ==> DecidedBy(trace, id, Rows(trace)[id])
    ensures Rows(trace)[id] == Accepted ==> Decided(trace, id, true)
    ensures Rows(trace)[id] == Rejected ==> Decided(trace, id, false)
  {
    var state := Rows(trace)[id];
    if state != InPreparation {
      RowWasFinalized(trace, id);
      var i :| 0 <= i < |trace| && trace[i] == Finalized(id, state);
      SoundAtEveryCrash(trace, i);
      var j :| 0 <= j < i && trace[..i][j].Answered? && trace[..i][j].id == id && StateOf(trace[..i][j].answer) == state;
      SoundAtEveryCrash(trace, j);
      assert trace[j] == trace[..i][j];
    }
  }

  /** LEDGER SOUNDNESS at any crash point n: every sent mutation has a row, an
      accepted row was really applied and a rejected one really was not. */
  lemma LedgerTellsTheTruth(trace: seq<Event>, n: nat, id: CallId)
    requires Sound(trace) && n <= |trace|
    ensures Sent(id) in trace[..n] ==> id in Rows(trace[..n])
    ensures id in Rows(trace[..n]) && Rows(trace[..n])[id] == Accepted ==> Decided(trace[..n], id, true)
    ensures id in Rows(trace[..n]) && Rows(trace[..n])[id] == Rejected ==> Decided(trace[..n], id, false)
  {
    var t := trace[..n];
    SoundAtEveryCrash(trace, n);
    if id in Rows(t) {
      FinalRowTellsTheTruth(t, id);
    }
    if Sent(id) in t {
      var i :| 0 <= i < n && t[i] == Sent(id);
      SentIsPrepared(t, i);
    }
  }

  lemma SentIsPrepared(trace: seq<Event>, i: nat)
    requires Sound(trace) && i < |trace| && trace[i].Sent?
    ensures Prepared(trace[i].id) in trace[..i] && trace[i].id in Rows(trace)
  {
    SoundAtEveryCrash(trace, i);
    var j :| 0 <= j < i && trace[..i][j] == Prepared(trace[i].id);
    assert trace[j] == trace[..i][j];
    PreparedHasRow(trace, j);
  }

  /** A row leaves preparation at most once. */
  lemma {:induction false} DecisionIsFinal(trace: seq<Event>, m: nat, n: nat, id: CallId)
    requires Sound(trace) && m <= n <= |trace|
    requires id in Rows(trace[..m]) && Rows(trace[..m])[id] != InPreparation
    ensures id in Rows(trace[..n]) && Rows(trace[..n])[id] == Rows(trace[..m])[id]
  {
    if m < n {
      DecisionIsFinal(trace, m, n - 1, id);
      LateEventKeepsRow(trace, m, n, id);
      RowSurvives(trace[..n - 1], trace[n - 1], trace[..n], id);
    }
  }

  lemma RowSurvives(before: seq<Event>, e: Event, after: seq<Event>, id: CallId)
    requires after == before + [e] && id in Rows(before)
    requires e != Prepared(id) && !(e.Finalized? && e.id == id)
    ensures id in Rows(after) && Rows(after)[id] == Rows(before)[id]
  {
    RowsAppend(before, e);
  }

  lemma LateEventKeepsRow(trace: seq<Event>, m: nat, n: nat, id: CallId)
    requires Sound(trace) && m < n <= |trace|
    requires id in Rows(trace[..m]) && Rows(trace[..m])[id] != InPreparation
    ensures trace[n - 1] != Prepared(id)
    ensures !(trace[n - 1].Finalized? && trace[n - 1].id == id)
  {
    RowWasFinalized(trace[..m], id);
    var i :| 0 <= i < m && trace[..m][i] == Finalized(id, Rows(trace[..m])[id]);
    assert trace[i] == trace[..m][i];
    FinalizedWasPrepared(trace, i);
    SoundAtEveryCrash(trace, n - 1);
    var before := trace[..n - 1];
    assert before[i] == trace[i];
    assert Prepared(id) in before by {
      var l :| 0 <= l < i && trace[..i][l] == Prepared(id);
      assert before[l] == trace[..i][l];
    }
  }

  lemma FinalizedWasPrepared(trace: seq<Event>, i: nat)
    requires Sound(trace) && i < |trace| && trace[i].Finalized?
    ensures Prepared(trace[i].id) in trace[..i]
  {
    var id := trace[i].id;
    SoundAtEveryCrash(trace, i);
    var j :| 0 <= j < i && trace[..i][j].Answered? && trace[..i][j].id == id;
    SoundAtEveryCrash(trace, j);
    var k :| 0 <= k < j && trace[..j][k] == Sent(id);
    SoundAtEveryCrash(trace, k);
    var l :| 0 <= l < k && trace[..k][l] == Prepared(id);
    assert trace[..i][l] == trace[..k][l];
  }

  lemma RowsAppend(trace: seq<Event>, e: Event)
    ensures Rows(trace + [e]) ==
            match e
            case Prepared(id) => Rows(trace)[id := InPreparation]
            case Finalized(id, state) => Rows(trace)[id := state]
            case _ => Rows(trace)
  {
    assert (trace + [e])[..|trace|] == trace;
  }

  /** What Invoke hands back to the action. */
  datatype Verdict =
    | Done
    | NotSent                // refused locally before any request
    | DefinitiveRejection
    | UnknownWrite
    | CommittedWrite
    | PlainRejection         // a 4xx after an earlier mutation was accepted

  /** Row and verdict of a call are those its answer calls for. */
  ghost predicate AnsweredWith(trace: seq<Event>, id: CallId, rows: map<CallId, LedgerState>, v: Verdict, accepted: bool) {
    exists j :: 0 <= j < |trace| && trace[j].Answered? && trace[j].id == id
      && id in rows && Fits(trace[j].answer, rows[id]) && Reported(trace[j].answer, v, accepted)
  }

  /** What the action is told of an answer, once an earlier mutation was accepted or not. */
  predicate Reported(a: Answer, v: Verdict, accepted: bool) {
    && (a == Success ==> v == Done)
    && (Refusal(a) ==> v == if accepted then PlainRejection else DefinitiveRejection)
    && (a != Success && !Refusal(a) ==> v == UnknownWrite)
  }

  /** Since start a request was really applied. */
  ghost predicate AppliedSince(trace: seq<Event>, start: nat) {
    exists i :: start <= i < |trace| && trace[i].Answered? && trace[i].applied
  }

  /** The trace goes on with the row and the request of a call. */
  ghost predicate Begins(trace: seq<Event>, before: seq<Event>, id: CallId) {
    before + [Prepared(id), Sent(id)] <= trace
  }

  lemma AppliedFrom(trace: seq<Event>, early: nat, late: nat)
    requires early <= late <= |trace| && forall i | early <= i < late :: !trace[i].Answered?
    ensures AppliedSince(trace, early) <==> AppliedSince(trace, late)
  {
    if AppliedSince(trace, early) {
      var i :| early <= i < |trace| && trace[i].Answered? && trace[i].applied;
      assert i >= late;
    }
  }

  lemma OneAnswer(trace: seq<Event>, start: nat)
    requires start < |trace| <= start + 2 && trace[start].Answered?
    requires |trace| == start + 2 ==> trace[start + 1].Finalized?
    ensures AppliedSince(trace, start) <==> trace[start].applied
  {
  }

  /** The trace is sound, concerns only this invoker's calls so far, and the
      table shows what it says. */
  ghost predicate Consistent(trace: seq<Event>, rows: map<CallId, LedgerState>, request: string, sequence: nat) {
    && Sound(trace)
    && (forall i | 0 <= i < |trace| :: trace[i].id.request == request && trace[i].id.number <= sequence)
    && Shows(rows, Rows(trace))
  }

  ghost predicate Shows(rows: map<CallId, LedgerState>, own: map<CallId, LedgerState>) {
    forall id | id in own :: id in rows && rows[id] == own[id]
  }

  /** The table after the durable part of one more event. */
  function Recorded(rows: map<CallId, LedgerState>, e: Event): map<CallId, LedgerState> {
    match e
    case Prepared(id) => rows[id := InPreparation]
    case Finalized(id, state) => rows[id := state]
    case _ => rows
  }

  lemma AppendingKeepsConsistent(trace: seq<Event>, rows: map<CallId, LedgerState>, request: string, sequence: nat, e: Event)
    requires Consistent(trace, rows, request, sequence) && e.id == CallId(request, sequence)
    requires Appendable(trace, e)
    ensures Consistent(trace + [e], Recorded(rows, e), request, sequence)
  {
    assert (trace + [e])[..|trace|] == trace;
    RowsAppend(trace, e);
    assert Rows(trace + [e]) == Recorded(Rows(trace), e);
  }

  lemma NewCallMayLeave(trace: seq<Event>, id: CallId)
    requires forall i | 0 <= i < |trace| :: trace[i].id != id
    ensures Appendable(trace, Prepared(id)) && Appendable(trace + [Prepared(id)], Sent(id))
  {
    assert (trace + [Prepared(id)])[|trace|] == Prepared(id);
  }

  class Invoker {
    var present: bool         // a ledger database is configured
    var rows: map<CallId, LedgerState>
    var sequence: nat
    var accepted: bool
    var clock: int            // seconds
    const request: string
    const window: WriteWindow
    const healthy: bool       // no local failure outside the window, no cooldown, and call ids are this process's own
    const alone: bool         // no other process reserves in the window
    const obliging: bool      // Telegram accepts every request, and no time passes
    ghost var trace: seq<Event>

    constructor (present: bool, rows: map<CallId, LedgerState>, request: string, window: WriteWindow, clock: int,
                 healthy: bool, alone: bool, obliging: bool)
      requires window.Valid() && window.last <= clock
      ensures Valid() && Timely() && this.rows == rows && this.request == request && trace == [] && !accepted
      ensures this.present == present && this.healthy == healthy && this.alone == alone && this.obliging == obliging
      ensures this.window == window && this.clock == clock && sequence == 0
    {
      this.present, this.rows, this.request, this.healthy := present, rows, request, healthy;
      this.window, this.clock, this.alone, this.obliging := window, clock, alone, obliging;
      sequence, accepted, trace := 0, false, [];
    }

    ghost predicate Valid()
      reads this
    {
      Consistent(trace, rows, request, sequence)
    }

    /** The write window is in order and not ahead of the clock. */
    ghost predicate Timely()
      reads this, window
    {
      window.Valid() && window.last <= clock
    }

    /** The n-th reservation from now fails, by a fault or for want of a slot. */
    ghost predicate Stops(n: nat)
      reads this, window
    {
      window.Stops(n, Slots(window.granted, clock))
    }

    /** No row bears a number this process has yet to give. */
    ghost predicate Numbered()
      reads this
    {
      forall id | id in rows && id.request == request :: id.number <= sequence
    }

    /** Nothing but a reservation can go wrong. */
    ghost predicate Smooth()
      reads this
    {
      healthy && alone && obliging && present && Numbered()
    }

    ghost predicate Fresh(id: CallId)
      reads this
    {
      id == CallId(request, sequence) && forall i | 0 <= i < |trace| :: trace[i].id != id
    }

    /** Other processes add and decide rows, but not the rows of this one. */
    method Interfere()
      modifies this`rows
      ensures Shows(rows, old(rows))
      ensures healthy ==> forall id | id in rows && id.request == request :: id in old(rows)
    {
      var others: map<CallId, LedgerState> := *;
      var foreign := map id | id in others && id.request != request :: others[id];
      rows := (if healthy then foreign else others) + rows;
    }

    /** Time passes, and other processes make reservations of their own. */
    method Wait()
      requires Timely()
      modifies this`clock, window
      ensures Timely() && old(clock) <= clock && (obliging ==> clock == old(clock))
      ensures alone ==> window.granted == old(window.granted) && window.used == old(window.used)
    {
      var delay: nat, others: nat := *, *;
      if !obliging {
        clock := clock + delay;
      }
      if !alone {
        for n := 0 to others
          invariant Timely() && old(clock) <= clock && (obliging ==> clock == old(clock))
        {
          var _ := window.Reserve(clock);
        }
      }
    }

    /** reserveWriteWindow; not reserved means any error of it. */
    method Reserve() returns (reserved: bool)
      requires Timely()
      modifies this`clock, window
      ensures Timely() && old(clock) <= clock
      ensures alone ==> window.used == old(window.used) + 1 && (!old(Stops(0)) ==> reserved)
      ensures alone && reserved ==> Slots(window.granted, clock) >= old(Slots(window.granted, clock)) - 1
      ensures alone && obliging ==> (reserved <==> !old(Stops(0)))
      ensures alone && obliging && reserved ==> Slots(window.granted, clock) == old(Slots(window.granted, clock)) - 1
    {
      Wait();
      assert alone ==> Slots(window.granted, clock) >= old(Slots(window.granted, clock)) by {
        if alone {
          SlotsLater(window.granted, old(clock), clock);
        }
      }
      var r := window.Reserve(clock);
      reserved := r.Reserved?;
    }

    /** Sends one mutation through the ledger. */
    method Invoke() returns (v: Verdict, ghost sent: bool, ghost reserved: bool)
      requires Valid() && Timely()
      modifies this, window
      ensures Valid() && Timely() && old(trace) <= trace && (old(accepted) ==> accepted)
      // at most one request leaves, and only after its row exists
      ensures forall i | |old(trace)| <= i < |trace| :: trace[i].id == CallId(request, sequence)
      ensures if sent then Begins(trace, old(trace), CallId(request, sequence)) else trace == old(trace)
      ensures sent ==> reserved
      // the verdict agrees with what the server did
      ensures v == NotSent ==> !sent
      ensures v == DefinitiveRejection ==> !AppliedSince(trace, |old(trace)|)
      ensures v == DefinitiveRejection ==> if reserved then sent && !old(accepted) else !sent
      ensures v == PlainRejection ==> !AppliedSince(trace, |old(trace)|) && old(accepted)
      ensures v == Done || v == CommittedWrite ==> AppliedSince(trace, |old(trace)|)
      ensures v == Done ==> accepted
      ensures v == UnknownWrite ==> sent
      ensures sent ==> sequence == old(sequence) + 1
      ensures !present ==> v == NotSent && window.used == old(window.used)
      // a reservation that cannot fail does not
      ensures alone && v == DefinitiveRejection && !reserved ==> old(Stops(0))
      ensures alone && v == Done ==>
        window.used == old(window.used) + 1 && Slots(window.granted, clock) >= old(Slots(window.granted, clock)) - 1
      // nothing else failing locally, the request is sent and the verdict is the server's answer
      ensures healthy && present && old(Numbered()) ==>
        Numbered() && if reserved then sent && AnsweredWith(trace, CallId(request, sequence), rows, v, old(accepted))
                      else v == DefinitiveRejection
      // and with an obliging server the reservation alone decides
      ensures old(Smooth()) ==> Smooth() && v == if old(Stops(0)) then DefinitiveRejection else Done
      ensures old(Smooth()) && v == Done ==> Slots(window.granted, clock) == old(Slots(window.granted, clock)) - 1
    {
      sent, reserved := false, false;
      var held: bool := *;
      if !present || (held && !healthy) {
        return NotSent, false, false;  // cooldown, no ledger, or already cancelled
      }
      var slot := Reserve();
      reserved := slot;
      if !slot {
        return DefinitiveRejection, false, false;
      }
      v, sent := Submit();
    }

    /** With a slot reserved: numbers the call and inserts its row. */
    method Submit() returns (v: Verdict, ghost sent: bool)
      requires Valid()
      modifies this`rows, this`sequence, this`accepted, this`trace
      ensures Valid() && old(trace) <= trace && (old(accepted) ==> accepted)
      ensures forall i | |old(trace)| <= i < |trace| :: trace[i].id == CallId(request, sequence)
      ensures if sent then Begins(trace, old(trace), CallId(request, sequence)) else trace == old(trace) && v == NotSent
      ensures v == NotSent ==> !sent
      ensures sent ==> sequence == old(sequence) + 1
      ensures v == DefinitiveRejection ==> !AppliedSince(trace, |old(trace)|) && !old(accepted)
      ensures v == PlainRejection ==> !AppliedSince(trace, |old(trace)|) && old(accepted)
      ensures v == Done || v == CommittedWrite ==> AppliedSince(trace, |old(trace)|)
      ensures v == Done ==> accepted
      ensures healthy && old(Numbered()) ==>
        Numbered() && sent && AnsweredWith(trace, CallId(request, sequence), rows, v, old(accepted)) && (obliging ==> v == Done)
    {
      sent := false;
      var malformed, insertFails: bool := *, *;
      if malformed && !healthy {
        return NotSent, false;  // the request could not be encoded
      }
      sequence := sequence + 1;
      var id := CallId(request, sequence);
      Interfere();
      if id in rows || (insertFails && !healthy) {
        return NotSent, false;  // preparation failed; Telegram was not called
      }
      sent := true;
      v := Dispatch(id);
    }

    /** The row, the request, and what comes of it. */
    method Dispatch(id: CallId) returns (v: Verdict)
      requires Valid() && Fresh(id) && id !in rows
      modifies this`rows, this`accepted, this`trace
      ensures Valid() && (old(accepted) ==> accepted) && Begins(trace, old(trace), id)
      ensures forall i | |old(trace)| <= i < |trace| :: trace[i].id == id
      ensures v != NotSent
      ensures v == DefinitiveRejection ==> !AppliedSince(trace, |old(trace)|) && !old(accepted)
      ensures v == PlainRejection ==> !AppliedSince(trace, |old(trace)|) && old(accepted)
      ensures v == Done || v == CommittedWrite ==> AppliedSince(trace, |old(trace)|)
      ensures v == Done ==> accepted
      ensures healthy ==> AnsweredWith(trace, id, rows, v, old(accepted))
      ensures healthy ==> forall other | other in rows && other.request == request :: other in old(rows) || other == id
      ensures obliging && healthy ==> v == Done
    {
      Prepare(id);
      ghost var start := |trace|;
      v := Conclude(id);
      AppliedFrom(trace, start - 2, start);
    }

    /** Inserts the row, then lets the request leave. */
    method Prepare(id: CallId)
      requires Valid() && Fresh(id) && id !in rows
      modifies this`rows, this`trace
      ensures Valid() && trace == old(trace) + [Prepared(id), Sent(id)] && rows == old(rows)[id := InPreparation]
    {
      NewCallMayLeave(trace, id);
      AppendingKeepsConsistent(trace, rows, request, sequence, Prepared(id));
      rows := rows[id := InPreparation];
      trace := trace + [Prepared(id)];
      AppendingKeepsConsistent(trace, rows, request, sequence, Sent(id));
      trace := trace + [Sent(id)];
      assert trace == old(trace) + [Prepared(id), Sent(id)];
    }

    /** The server acts on the request and something comes back. */
    method Receive(id: CallId) returns (answer: Answer)
      requires Valid() && id == CallId(request, sequence)
      requires |trace| >= 1 && trace[|trace| - 1] == Sent(id)
      requires forall i | 0 <= i < |trace| && trace[i].Answered? :: trace[i].id != id
      modifies this`trace
      ensures Valid() && |trace| == |old(trace)| + 1 && old(trace) <= trace
      ensures var e := trace[|old(trace)|];
        e.Answered? && e.id == id && e.answer == answer && Truthful(answer, e.applied)
      ensures obliging ==> answer.Success?
    {
      var applied: bool;
      if obliging {
        answer, applied := Success, true;
      } else {
        answer, applied :| Truthful(answer, applied);
      }
      AppendingKeepsConsistent(trace, rows, request, sequence, Answered(id, answer, applied));
      trace := trace + [Answered(id, answer, applied)];
    }

    /** From the server's answer to the recorded outcome. */
    method Conclude(id: CallId) returns (v: Verdict)
      requires Valid() && id == CallId(request, sequence)
      requires |trace| >= 2 && trace[|trace| - 1] == Sent(id) && trace[|trace| - 2] == Prepared(id)
      requires forall i | 0 <= i < |trace| - 2 :: trace[i].id != id
      modifies this`rows, this`accepted, this`trace
      ensures Valid() && old(trace) <= trace && (old(accepted) ==> accepted)
      ensures forall i | |old(trace)| <= i < |trace| :: trace[i].id == id
      ensures v != NotSent
      ensures v == DefinitiveRejection ==> !AppliedSince(trace, |old(trace)|) && !old(accepted)
      ensures v == PlainRejection ==> !AppliedSince(trace, |old(trace)|) && old(accepted)
      ensures v == Done || v == CommittedWrite ==> AppliedSince(trace, |old(trace)|)
      ensures v == Done ==> accepted
      ensures healthy ==> AnsweredWith(trace, id, rows, v, old(accepted))
      ensures healthy ==> forall other | other in rows && other.request == request :: other in old(rows) || other == id
      ensures obliging && healthy ==> v == Done
    {
      var answer := Receive(id);
      assert id in rows by {
        assert trace[|trace| - 3] == Prepared(id);
        PreparedHasRow(trace, |trace| - 3);
      }
      assert AnsweredAs(trace, id, StateOf(answer)) by {
        assert trace[|old(trace)|].Answered?;
      }
      v := Settle(id, answer);
      OneAnswer(trace, |old(trace)|);
    }

    /** Records the outcome of an answered request and classifies it. */
    method Settle(id: CallId, answer: Answer) returns (v: Verdict)
      requires Valid() && id == CallId(request, sequence) && id in rows
      requires AnsweredAs(trace, id, StateOf(answer))
      requires forall i | 0 <= i < |trace| && trace[i].Finalized? :: trace[i].id != id
      modifies this`rows, this`accepted, this`trace
      ensures Valid() && (old(accepted) ==> accepted)
      ensures trace == old(trace) || trace == old(trace) + [Finalized(id, StateOf(answer))]
      ensures match v
              case Done => answer.Success? && accepted
              case CommittedWrite => answer.Success?
              case DefinitiveRejection => Refusal(answer) && !old(accepted)
              case PlainRejection => Refusal(answer) && old(accepted)
              case UnknownWrite => !answer.Success?
              case NotSent => false
      ensures healthy ==>
        && trace == old(trace) + [Finalized(id, StateOf(answer))]
        && Fits(answer, rows[id]) && Reported(answer, v, old(accepted))
      ensures healthy ==> forall other | other in rows && other.request == request :: other in old(rows) || other == id
    {
      var cooldownFails, applyFails, encodeFails: bool := *, *, *;
      if !answer.Success? && cooldownFails && !healthy {
        return UnknownWrite;
      }
      if answer.Success? && (applyFails || encodeFails) && !healthy {
        return CommittedWrite;  // local update or response could not be kept; the row stays prepared
      }
      Interfere();
      var state := StateOf(answer);
      var saved := Finalize(id, state);
      if !saved {
        return if state == Accepted then CommittedWrite else UnknownWrite;
      }
      if state == Accepted {
        accepted := true;
        return Done;
      }
      if state == Unknown {
        return UnknownWrite;
      }
      return if accepted then PlainRejection else DefinitiveRejection;
    }

    /** UPDATE ... WHERE call_id; an error may hide that it took effect. */
    method Finalize(id: CallId, state: LedgerState) returns (saved: bool)
      requires Valid() && state != InPreparation
      requires AnsweredAs(trace, id, state)
      requires forall i | 0 <= i < |trace| && trace[i].Finalized? :: trace[i].id != id
      requires id == CallId(request, sequence) && id in rows
      modifies this`rows, this`trace
      ensures Valid()
      ensures trace == old(trace) + [Finalized(id, state)] || (!saved && trace == old(trace))
      ensures saved || healthy ==>
        saved && trace == old(trace) + [Finalized(id, state)] && rows == old(rows)[id := state]
    {
      var lost, hidden: bool := *, *;
      if lost && !healthy {
        return false;
      }
      AppendingKeepsConsistent(trace, rows, request, sequence, Finalized(id, state));
      rows := rows[id := state];
      trace := trace + [Finalized(id, state)];
      saved := healthy || !hidden;
    }
  }

  /** An action of several mutations that stops at the first error. A
      definitive rejection then means nothing of it was applied, except when a
      reservation failed after earlier mutations went through. That cannot
      happen to an action of one mutation, nor to one that is alone and starts
      with a slot and a working database for each of its mutations; and where
      nothing but a reservation can go wrong, it happens exactly when some later
      reservation fails and the first does not. */
  method RunAction(j: Invoker, mutations: nat) returns (v: Verdict, done: nat, ghost reserved: bool)
    requires j.Valid() && j.Timely() && !j.accepted
    modifies j, j.window
    ensures j.Valid() && j.Timely() && old(j.trace) <= j.trace && done <= mutations
    ensures v == Done ==> done == mutations && (mutations > 0 ==> AppliedSince(j.trace, |old(j.trace)|))
    ensures v == CommittedWrite ==> AppliedSince(j.trace, |old(j.trace)|)
    ensures v == DefinitiveRejection ==>
      (AppliedSince(j.trace, |old(j.trace)|) <==> !reserved && done > 0)
    ensures v == NotSent && done == 0 ==> !AppliedSince(j.trace, |old(j.trace)|)
    ensures v == DefinitiveRejection && mutations == 1 ==> !AppliedSince(j.trace, |old(j.trace)|)
    ensures j.alone && v == DefinitiveRejection && AppliedSince(j.trace, |old(j.trace)|) ==>
      exists n | 1 <= n < mutations :: old(j.Stops(n))
    ensures old(j.Smooth()) ==>
      (v == DefinitiveRejection && AppliedSince(j.trace, |old(j.trace)|)
       <==> !old(j.Stops(0)) && exists n | 1 <= n < mutations :: old(j.Stops(n)))
  {
    ghost var start, used, slots := |j.trace|, j.window.used, Slots(j.window.granted, j.clock);
    v, done, reserved := Done, 0, true;
    while done < mutations
      invariant j.Valid() && j.Timely() && old(j.trace) <= j.trace && done <= mutations && v == Done
      invariant done > 0 <==> AppliedSince(j.trace, start)
      invariant done > 0 <==> j.accepted
      invariant j.alone ==> Remaining(j, used, slots, done, false)
      invariant old(j.Smooth()) ==>
        j.Smooth() && Remaining(j, used, slots, done, true) && forall n | 0 <= n < done :: !old(j.Stops(n))
    {
      v, reserved := Attempt(j, start, used, slots, done);
      assert used + done in j.window.faults || slots <= done <==> old(j.Stops(done));
      if v != Done {
        return;
      }
      done := done + 1;
    }
  }

  /** The next mutation of an action, after some that were done. */
  method Attempt(j: Invoker, ghost start: nat, ghost used: nat, ghost slots: int, ghost done: nat)
    returns (v: Verdict, ghost reserved: bool)
    requires j.Valid() && j.Timely() && start <= |j.trace|
    requires (done > 0 <==> AppliedSince(j.trace, start)) && (done > 0 <==> j.accepted)
    requires j.alone ==> Remaining(j, used, slots, done, false)
    modifies j, j.window
    ensures j.Valid() && j.Timely() && old(j.trace) <= j.trace
    ensures v == Done ==>
      AppliedSince(j.trace, start) && j.accepted && (j.alone ==> Remaining(j, used, slots, done + 1, false))
    ensures v == CommittedWrite ==> AppliedSince(j.trace, start)
    ensures v == NotSent && done == 0 ==> !AppliedSince(j.trace, start)
    ensures v == DefinitiveRejection ==> (AppliedSince(j.trace, start) <==> !reserved && done > 0)
    ensures j.alone && v == DefinitiveRejection && !reserved ==> used + done in j.window.faults || slots <= done
    ensures old(j.Smooth() && Remaining(j, used, slots, done, true)) ==>
      && j.Smooth() && v == (if used + done in j.window.faults || slots <= done then DefinitiveRejection else Done)
      && (v == Done ==> Remaining(j, used, slots, done + 1, true))
  {
    ghost var earlier, sent := j.trace, false;
    v, sent, reserved := j.Invoke();
    AppliedGrows(earlier, j.trace, start);
  }

  /** After so many reservations that worked: no more than that many slots are
      gone, or exactly that many. */
  ghost predicate Remaining(j: Invoker, used: nat, slots: int, done: nat, exactly: bool)
    reads j, j.window
  {
    && j.window.used == used + done
    && Slots(j.window.granted, j.clock) >= slots - done
    && (exactly ==> Slots(j.window.granted, j.clock) == slots - done)
  }

  /** Two mutations with one slot left, or with a database that breaks on the
      second reservation while the window is empty: the first is applied, and
      the action reports a definitive rejection. */
  method RejectionHidesMutation(full: bool) returns (v: Verdict, ghost j: Invoker)
    ensures v == DefinitiveRejection && AppliedSince(j.trace, 0)
    ensures j.window.faults == if full then map[] else map[1 := Broken]
  {
    var window := new WriteWindow(0, if full then map[] else map[1 := Broken]);
    if full {
      for n := 0 to ACCOUNT_MAX - 1
        invariant window.Valid() && window.last == 0 && window.faults == map[] && fresh(window)
        invariant Slots(window.granted, 0) == ACCOUNT_MAX - n
      {
        var _ := window.Reserve(0);
      }
    }
    var invoker := new Invoker(true, map[], "request", window, 0, true, true, true);
    assert invoker.Stops(1) && !invoker.Stops(0);
    var done;
    ghost var reserved;
    v, done, reserved := RunAction(invoker, 2);
    j := invoker;
  }

  lemma AppliedGrows(earlier: seq<Event>, later: seq<Event>, start: nat)
    requires earlier <= later && start <= |earlier|
    ensures AppliedSince(later, start) <==> AppliedSince(earlier, start) || AppliedSince(later, |earlier|)
  {
    if AppliedSince(earlier, start) {
      var i :| start <= i < |earlier| && earlier[i].Answered? && earlier[i].applied;
      assert later[i] == earlier[i];
    }
    if AppliedSince(later, start) && !AppliedSince(later, |earlier|) {
      var i :| start <= i < |later| && later[i].Answered? && later[i].applied;
      assert i < |earlier| && earlier[i] == later[i];
    }
  }
}
