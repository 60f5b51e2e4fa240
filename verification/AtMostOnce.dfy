/** Any number of processes running the write pipeline against one shared
    table, interleaved statement by statement, each of which may crash at any
    point and whose Telegram call may be accepted at any time once sent. */
module AtMostOnce {
  import opened Wrappers
  import opened Idempotency

  type Pid = nat

  /** One invocation. A fingerprint that is blank after trimming is None. */
  datatype Request = Request(key: Key, command: string, fingerprint: Option<string>, target: Option<Target>)

  datatype Result =
    | Replayed(data: Data)
    | ReplayedMarker           // a bare pending marker handed back as data
    | RefusedPending
    | RefusedOther
    | NotExecuted
    | Rejected
    | UnknownOutcome
    | Completed(data: Data)
    | CommittedUnrecorded

  datatype Pc =
    | Start
    | InsertFailed
    | Ready(reserved: bool)
    | Calling(reserved: bool)
    | Succeeded(reserved: bool, data: Data)
    | Releasing(after: Result)
    | Deleting(after: Result, seen: Envelope)
    | Finished(result: Result)
    | Crashed

  type Config = map<Pid, Request>

  /** accepted and rejected are what Telegram did with a sent execution; a
      definitive rejection is final. returned is what each successful call gave
      back. */
  datatype World = World(table: Table, pcs: map<Pid, Pc>, sent: set<Pid>, accepted: set<Pid>, rejected: set<Pid>,
                         returned: map<Pid, Data>)

  datatype Step =
    | DryRun
    | InsertPending(fault: Fault)
    | LookupExisting(fault: Fault)
    | LookupUnreserved(fault: Fault)
    | Abandon
    | Call
    | Accept
    | ReturnSuccess(data: Data)
    | ReturnRejection
    | ReturnUnknown
    | Record(fault: Fault)
    | ReleaseSelect(fault: Fault)
    | ReleaseDelete(fault: Fault)
    | Crash

  /** How a statement can go wrong. */
  datatype Fault = NoFault | Lost | Hidden  // no effect; effect, but reported as an error

  /** validateConfirmedReplay for an envelope with confirmation metadata. */
  predicate ConfirmsTarget(e: Envelope, target: Option<Target>) {
    target.None? || (e.Done? && e.target == target)
  }

  /** Answering from a stored envelope. */
  function Replay(r: Request, e: Envelope): Result {
    if r.fingerprint.Some? && (e.Pending? || e.fingerprint != r.fingerprint) then RefusedOther
    else if !ConfirmsTarget(e, r.target) then RefusedOther
    else match e
      case Pending(_) => ReplayedMarker
      case Done(_, _, data) => Replayed(data)
  }

  function AnswerExisting(r: Request, t: Table): Result
    requires r.fingerprint.Some?
  {
    match AfterFailedInsert(t, r.key, r.command, r.fingerprint.value)
    case Existing(Pending(_)) => RefusedPending
    case Existing(e) => Replay(r, e)
    case _ => RefusedOther
  }

  function Marker(p: Pid, r: Request): Row
    requires r.fingerprint.Some?
  {
    Row(r.command, p, Pending(r.fingerprint.value))
  }

  predicate Keyed(r: Request) {
    r.fingerprint.Some? && r.key != ""
  }

  /** Process p, which is at pc, takes one step in w; None when it cannot. */
  function Do(r: Request, p: Pid, w: World, s: Step): Option<World>
    requires p in w.pcs
  {
    var pc := w.pcs[p];
    match s
    case DryRun => if pc == Start then Some(Goto(w, p, Finished(NotExecuted))) else None
    case InsertPending(fault) =>
      if pc != Start || !Keyed(r) then None
      else (
        var inserted := Insert(w.table, r.key, Marker(p, r));
        match fault
        case NoFault => if inserted.None? then Some(Goto(w, p, InsertFailed))
                        else Some(Goto(w.(table := inserted.value), p, Ready(true)))
        case Lost => Some(Goto(w, p, InsertFailed))
        case Hidden => if inserted.None? then None else Some(Goto(w.(table := inserted.value), p, InsertFailed)))
    case LookupExisting(fault) =>
      if pc != InsertFailed || !Keyed(r) then None
      else if fault != NoFault then Some(Goto(w, p, Finished(RefusedOther)))
      else Some(Goto(w, p, Finished(AnswerExisting(r, w.table))))
    case LookupUnreserved(fault) =>
      if pc != Start || Keyed(r) then None
      else if fault != NoFault then Some(Goto(w, p, Finished(RefusedOther)))
      else (
        match Lookup(w.table, r.key, r.command)
        case NoRow => Some(Goto(w, p, Ready(false)))
        case WrongCommand => Some(Goto(w, p, Finished(RefusedOther)))
        case Hit(e) => Some(Goto(w, p, Finished(Replay(r, e)))))
    case Abandon =>  // fuzzy gate, resolver, rate limiter or audit failure
      if !pc.Ready? then None
      else Some(Goto(w, p, if pc.reserved then Releasing(NotExecuted) else Finished(NotExecuted)))
    case Call =>
      if !pc.Ready? then None
      else Some(Goto(w.(sent := w.sent + {p}), p, Calling(pc.reserved)))
    case Accept =>
      if p in w.sent && p !in w.rejected then Some(w.(accepted := w.accepted + {p})) else None
    case ReturnSuccess(data) =>
      if pc.Calling? && p in w.accepted
      then Some(Goto(w.(returned := w.returned[p := data]), p, Succeeded(pc.reserved, data))) else None
    case ReturnRejection =>
      if !pc.Calling? || p in w.accepted then None
      else Some(Goto(w.(rejected := w.rejected + {p}), p,
                     if pc.reserved then Releasing(Rejected) else Finished(Rejected)))
    case ReturnUnknown =>
      if !pc.Calling? then None else Some(Goto(w, p, Finished(UnknownOutcome)))
    case Record(fault) =>
      if !pc.Succeeded? then None
      else if r.key == "" then Some(Goto(w, p, Finished(Completed(pc.data))))
      else (
        var e := Done(r.fingerprint, r.target, pc.data);
        var written := if pc.reserved then Owns(w.table, r.key, r.command, p) else r.key !in w.table;
        var t := if !written then w.table
                 else if pc.reserved then Update(w.table, r.key, r.command, p, e)
                 else w.table[r.key := Row(r.command, p, e)];
        match fault
        case NoFault => Some(Goto(w.(table := t), p, Finished(if written then Completed(pc.data) else CommittedUnrecorded)))
        case Lost => Some(Goto(w, p, Finished(CommittedUnrecorded)))
        case Hidden => Some(Goto(w.(table := t), p, Finished(CommittedUnrecorded))))
    case ReleaseSelect(fault) =>
      if !pc.Releasing? then None
      else if fault == NoFault && Owns(w.table, r.key, r.command, p) && w.table[r.key].envelope.Pending?
      then Some(Goto(w, p, Deleting(pc.after, w.table[r.key].envelope)))
      else Some(Goto(w, p, Finished(pc.after)))
    case ReleaseDelete(fault) =>
      if !pc.Deleting? then None
      else if fault == Lost then Some(Goto(w, p, Finished(pc.after)))
      else Some(Goto(w.(table := Delete(w.table, r.key, r.command, p, pc.seen)), p, Finished(pc.after)))
    case Crash => Some(Goto(w, p, Crashed))
  }

  function Goto(w: World, p: Pid, pc: Pc): World {
    w.(pcs := w.pcs[p := pc])
  }

  ghost predicate Init(c: Config, w: World) {
    && w.table == map[] && w.sent == {} && w.accepted == {} && w.rejected == {} && w.returned == map[]
    && w.pcs.Keys == c.Keys && forall p | p in c :: w.pcs[p] == Start
  }

  ghost predicate Next(c: Config, w: World, w': World) {
    exists p: Pid, s: Step :: p in c && p in w.pcs && Do(c[p], p, w, s) == Some(w')
  }

  ghost predicate IsRun(c: Config, run: seq<World>) {
    |run| > 0 && Init(c, run[0]) && forall i | 0 < i < |run| :: NextAt(c, run, i)
  }

  ghost predicate NextAt(c: Config, run: seq<World>, i: nat)
    requires 0 < i < |run|
  {
    Next(c, run[i - 1], run[i])
  }

  /** A live execution reached Telegram and was not definitively rejected. */
  predicate Live(w: World, p: Pid) {
    p in w.sent && p !in w.rejected
  }

  predicate HoldsReservation(pc: Pc) {
    pc == Ready(true) || pc == Calling(true) || (pc.Succeeded? && pc.reserved)
  }

  predicate GivesUp(pc: Pc) {
    pc.Releasing? || pc.Deleting?
  }

  /** Everything the proof needs about one process. */
  ghost predicate ProcessOk(r: Request, p: Pid, w: World)
    requires p in w.pcs
  {
    HoldsItsRow(r, p, w) && StandsWithTelegram(r, p, w) && ReturnOk(r, p, w)
  }

  ghost predicate HoldsItsRow(r: Request, p: Pid, w: World)
    requires p in w.pcs
  {
    var pc := w.pcs[p];
    && (HoldsReservation(pc) || (Keyed(r) && Live(w, p)) ==> Owns(w.table, r.key, r.command, p))
    && (Keyed(r) && (pc.Ready? || pc.Calling? || pc.Succeeded?) ==> pc.reserved)
    && (HoldsReservation(pc) || GivesUp(pc) ==> Keyed(r))
  }

  /** How far the call can have got. */
  ghost predicate StandsWithTelegram(r: Request, p: Pid, w: World)
    requires p in w.pcs
  {
    var pc := w.pcs[p];
    && (pc.Start? || pc.InsertFailed? || pc.Ready? ==> p !in w.sent)
    && (pc.Calling? || pc.Succeeded? ==> p in w.sent && p !in w.rejected)
    && (pc.Succeeded? ==> p in w.accepted)
    && (GivesUp(pc) ==> !Live(w, p) && (pc.after.NotExecuted? || pc.after.Rejected?))
    && (pc.Deleting? ==> pc.seen.Pending?)
    && (p in w.accepted ==> p in w.sent && p !in w.rejected)
    && (p in w.rejected ==> p in w.sent)
  }

  /** What its call returned is what it carries on, and what it stored. */
  ghost predicate ReturnOk(r: Request, p: Pid, w: World)
    requires p in w.pcs
  {
    var pc := w.pcs[p];
    && (pc.Succeeded? ==> p in w.returned && w.returned[p] == pc.data)
    && (pc.Start? || pc.InsertFailed? || pc.Ready? || pc.Calling? ==> p !in w.returned)
    && (r.key != "" && pc.Finished? && pc.result.Completed? ==> Stored(r, p, w, pc.result.data))
  }

  /** The success envelope of p's request, with these data, is in its key's row. */
  predicate Stored(r: Request, p: Pid, w: World, data: Data) {
    && Owns(w.table, r.key, r.command, p)
    && w.table[r.key].envelope == Done(r.fingerprint, r.target, data)
    && p in w.returned && w.returned[p] == data
  }

  ghost predicate ProcessesOk(c: Config, w: World) {
    w.pcs.Keys == c.Keys && forall p | p in c :: ProcessOk(c[p], p, w)
  }

  ghost predicate Inv(c: Config, w: World) {
    && ProcessesOk(c, w)
    && (forall k | k in w.table :: RowOk(c, k, w))
  }

  /** No answer can come any more. */
  predicate PastCall(pc: Pc) {
    pc.Finished? || pc.Crashed?
  }

  /** The envelope carries what the request asked for. */
  predicate Describes(e: Envelope, r: Request) {
    match e
    case Pending(f) => r.fingerprint == Some(f)
    case Done(f, target, _) => f == r.fingerprint && target == r.target
  }

  /** A row belongs to the request that wrote it; a recorded success was
      accepted and its owner is past recording. */
  ghost predicate RowOk(c: Config, k: Key, w: World)
    requires k in w.table && w.pcs.Keys == c.Keys
  {
    var owner := w.table[k].requestId;
    && owner in c && c[owner].key == k && w.table[k].command == c[owner].command
    && Describes(w.table[k].envelope, c[owner])
    && (w.table[k].envelope.Done? ==>
         && owner in w.accepted && !HoldsReservation(w.pcs[owner])
         && owner in w.returned && w.returned[owner] == w.table[k].envelope.data
         && PastCall(w.pcs[owner]))
  }

  ghost predicate AllKeyed(c: Config, k: Key) {
    forall p | p in c && c[p].key == k :: c[p].fingerprint.Some?
  }

  /** A statement changes at most the row of the actor's own key, and never a
      row owned by somebody else or already recorded by anybody else. */
  lemma StepTouchesOnlyOwnRow(r: Request, p: Pid, w: World, s: Step, w': World)
    requires p in w.pcs && Do(r, p, w, s) == Some(w')
    ensures forall k | k != r.key :: (k in w'.table <==> k in w.table) && (k in w.table ==> w'.table[k] == w.table[k])
    ensures r.key in w.table && w.table[r.key].requestId != p ==>
      r.key in w'.table && w'.table[r.key] == w.table[r.key]
    ensures r.key in w'.table && (r.key !in w.table || w'.table[r.key] != w.table[r.key]) ==>
      && w'.table[r.key].requestId == p && w'.table[r.key].command == r.command
      && Describes(w'.table[r.key].envelope, r)
      && (w'.table[r.key].envelope.Pending? || (s.Record? && w.pcs[p].Succeeded?))
  {
  }

  lemma StepKeepsOthers(r: Request, p: Pid, w: World, s: Step, w': World, q: Pid)
    requires p in w.pcs && Do(r, p, w, s) == Some(w') && q != p
    ensures w'.pcs.Keys == w.pcs.Keys
    ensures q in w.pcs ==> w'.pcs[q] == w.pcs[q]
    ensures q in w'.sent <==> q in w.sent
    ensures q in w'.accepted <==> q in w.accepted
    ensures q in w'.rejected <==> q in w.rejected
    ensures (q in w'.returned <==> q in w.returned) && (q in w.returned ==> w'.returned[q] == w.returned[q])
  {
  }

  lemma StepKeepsOtherOk(r: Request, p: Pid, w: World, s: Step, w': World, rq: Request, q: Pid)
    requires p in w.pcs && q in w.pcs && p != q && ProcessOk(rq, q, w) && Do(r, p, w, s) == Some(w')
    ensures q in w'.pcs && ProcessOk(rq, q, w')
  {
    StepKeepsOthers(r, p, w, s, w', q);
    StepTouchesOnlyOwnRow(r, p, w, s, w');
  }

  lemma StepKeepsReturnOk(r: Request, p: Pid, w: World, s: Step, w': World)
    requires p in w.pcs && ProcessOk(r, p, w) && Do(r, p, w, s) == Some(w')
    ensures ReturnOk(r, p, w')
  {
  }

  lemma StepKeepsActorOk(r: Request, p: Pid, w: World, s: Step, w': World)
    requires p in w.pcs && ProcessOk(r, p, w) && Do(r, p, w, s) == Some(w')
    ensures ProcessOk(r, p, w')
  {
    StepKeepsItsRow(r, p, w, s, w');
    StepKeepsStand(r, p, w, s, w');
    StepKeepsReturnOk(r, p, w, s, w');
  }

  lemma StepKeepsStand(r: Request, p: Pid, w: World, s: Step, w': World)
    requires p in w.pcs && StandsWithTelegram(r, p, w) && Do(r, p, w, s) == Some(w')
    ensures StandsWithTelegram(r, p, w')
  {
  }

  lemma StepKeepsItsRow(r: Request, p: Pid, w: World, s: Step, w': World)
    requires p in w.pcs && HoldsItsRow(r, p, w) && StandsWithTelegram(r, p, w) && Do(r, p, w, s) == Some(w')
    ensures HoldsItsRow(r, p, w')
  {
    var pc := w.pcs[p];
    match s
    case DryRun =>
    case InsertPending(_) =>
    case LookupExisting(_) =>
    case LookupUnreserved(_) =>
    case Abandon =>
    case Call =>
    case Accept =>
    case ReturnSuccess(_) =>
    case ReturnRejection =>
    case ReturnUnknown =>
    case Record(_) =>
    case ReleaseSelect(_) =>
    case ReleaseDelete(_) =>
    case Crash =>
  }

  /** An accepted process that is past recording stays so. */
  lemma ActorStaysRecorded(r: Request, p: Pid, w: World, s: Step, w': World)
    requires p in w.pcs && ProcessOk(r, p, w) && Do(r, p, w, s) == Some(w')
    requires p in w.accepted && !HoldsReservation(w.pcs[p]) && p in w.returned && PastCall(w.pcs[p])
    ensures p in w'.accepted && !HoldsReservation(w'.pcs[p]) && PastCall(w'.pcs[p])
    ensures p in w'.returned && w'.returned[p] == w.returned[p]
  {
  }

  lemma ActorRecordsAccepted(r: Request, p: Pid, w: World, s: Step, w': World)
    requires p in w.pcs && ProcessOk(r, p, w) && Do(r, p, w, s) == Some(w')
    requires s.Record? && w.pcs[p].Succeeded?
    ensures p in w'.accepted && !HoldsReservation(w'.pcs[p]) && PastCall(w'.pcs[p])
    ensures p in w'.returned && w'.returned[p] == w.pcs[p].data
    ensures r.key in w'.table && (r.key !in w.table || w'.table[r.key] != w.table[r.key]) ==>
      w'.table[r.key].envelope == Done(r.fingerprint, r.target, w.pcs[p].data)
  {
  }

  lemma UnchangedRowStaysOk(c: Config, w: World, p: Pid, s: Step, w': World, k: Key)
    requires w.pcs.Keys == c.Keys && p in c && p in w.pcs && ProcessOk(c[p], p, w) && Do(c[p], p, w, s) == Some(w')
    requires k in w.table && RowOk(c, k, w) && k in w'.table && w'.table[k] == w.table[k]
    ensures w'.pcs.Keys == c.Keys && RowOk(c, k, w')
  {
    StepKeepsOthers(c[p], p, w, s, w', p + 1);
    var owner := w.table[k].requestId;
    if owner != p {
      StepKeepsOthers(c[p], p, w, s, w', owner);
    } else if w.table[k].envelope.Done? {
      ActorStaysRecorded(c[p], p, w, s, w');
    }
  }

  lemma ChangedRowIsOk(c: Config, w: World, p: Pid, s: Step, w': World, k: Key)
    requires w.pcs.Keys == c.Keys && p in c && p in w.pcs && ProcessOk(c[p], p, w) && Do(c[p], p, w, s) == Some(w')
    requires k in w'.table && (k !in w.table || w'.table[k] != w.table[k])
    ensures w'.pcs.Keys == c.Keys && RowOk(c, k, w')
  {
    StepKeepsOthers(c[p], p, w, s, w', p + 1);
    StepTouchesOnlyOwnRow(c[p], p, w, s, w');
    if w'.table[k].envelope.Done? {
      ActorRecordsAccepted(c[p], p, w, s, w');
    }
  }

  lemma StepKeepsRows(c: Config, w: World, p: Pid, s: Step, w': World)
    requires Inv(c, w) && p in c && Do(c[p], p, w, s) == Some(w')
    ensures w'.pcs.Keys == c.Keys && forall k | k in w'.table :: RowOk(c, k, w')
  {
    StepKeepsOthers(c[p], p, w, s, w', p + 1);
    forall k | k in w'.table ensures RowOk(c, k, w') {
      RowStaysOk(c, w, p, s, w', k);
    }
  }

  lemma RowStaysOk(c: Config, w: World, p: Pid, s: Step, w': World, k: Key)
    requires w.pcs.Keys == c.Keys && p in c && p in w.pcs && ProcessOk(c[p], p, w) && Do(c[p], p, w, s) == Some(w')
    requires k in w'.table && (k in w.table ==> RowOk(c, k, w))
    ensures w'.pcs.Keys == c.Keys && RowOk(c, k, w')
  {
    if k in w.table && w'.table[k] == w.table[k] {
      UnchangedRowStaysOk(c, w, p, s, w', k);
    } else {
      ChangedRowIsOk(c, w, p, s, w', k);
    }
  }

  lemma StepKeepsProcess(r: Request, p: Pid, w: World, s: Step, w': World, rq: Request, q: Pid)
    requires p in w.pcs && q in w.pcs && (p == q ==> r == rq) && ProcessOk(rq, q, w) && Do(r, p, w, s) == Some(w')
    ensures q in w'.pcs && ProcessOk(rq, q, w')
  {
    if p == q {
      StepKeepsActorOk(r, p, w, s, w');
    } else {
      StepKeepsOtherOk(r, p, w, s, w', rq, q);
    }
  }

  lemma StepKeepsProcesses(c: Config, w: World, p: Pid, s: Step, w': World)
    requires ProcessesOk(c, w) && p in c && Do(c[p], p, w, s) == Some(w')
    ensures ProcessesOk(c, w')
  {
    StepKeepsOthers(c[p], p, w, s, w', p + 1);
    forall q | q in c ensures ProcessOk(c[q], q, w') {
      StepKeepsProcess(c[p], p, w, s, w', c[q], q);
    }
  }

  lemma NextKeepsInv(c: Config, w: World, w': World)
    requires Inv(c, w) && Next(c, w, w')
    ensures Inv(c, w')
  {
    var p: Pid, s: Step :| p in c && p in w.pcs && Do(c[p], p, w, s) == Some(w');
    StepKeepsProcesses(c, w, p, s, w');
    StepKeepsRows(c, w, p, s, w');
  }

  lemma {:induction false} RunKeepsInv(c: Config, run: seq<World>, i: nat)
    requires IsRun(c, run) && i < |run|
    ensures Inv(c, run[i])
  {
    if i > 0 {
      RunKeepsInv(c, run, i - 1);
      assert NextAt(c, run, i);
      NextKeepsInv(c, run[i - 1], run[i]);
    }
  }

  /** AT MOST ONCE. In every run, at any point, two different requests that
      carry a fingerprint and use the same key are never both live: at most one
      execution without a definitive rejection ever reached Telegram, and so at
      most one was accepted. */
  lemma AtMostOneLive(c: Config, run: seq<World>, i: nat, p: Pid, q: Pid)
    requires IsRun(c, run) && i < |run| && p in c && q in c
    requires Keyed(c[p]) && Keyed(c[q]) && c[p].key == c[q].key
    requires Live(run[i], p) && Live(run[i], q)
    ensures p == q
  {
    RunKeepsInv(c, run, i);
    assert ProcessOk(c[p], p, run[i]) && ProcessOk(c[q], q, run[i]);
  }

  lemma NextKeepsRecorded(c: Config, w: World, w': World, k: Key)
    requires Inv(c, w) && Next(c, w, w')
    requires k in w.table && w.table[k].envelope.Done?
    ensures k in w'.table && w'.table[k] == w.table[k]
  {
    var p: Pid, s: Step :| p in c && p in w.pcs && Do(c[p], p, w, s) == Some(w');
    assert RowOk(c, k, w) && ProcessOk(c[p], p, w);
    StepKeepsDone(c[p], p, w, s, w', k);
  }

  lemma StepKeepsDone(r: Request, p: Pid, w: World, s: Step, w': World, k: Key)
    requires p in w.pcs && ProcessOk(r, p, w) && Do(r, p, w, s) == Some(w')
    requires k in w.table && w.table[k].envelope.Done?
    requires w.table[k].requestId == p ==> p in w.accepted && !HoldsReservation(w.pcs[p])
    ensures k in w'.table && w'.table[k] == w.table[k]
  {
    StepTouchesOnlyOwnRow(r, p, w, s, w');
  }

  /** A recorded result is never changed or removed again. */
  lemma {:induction false} RecordedForever(c: Config, run: seq<World>, i: nat, j: nat, k: Key)
    requires IsRun(c, run) && i <= j < |run|
    requires k in run[i].table && run[i].table[k].envelope.Done?
    ensures k in run[j].table && run[j].table[k] == run[i].table[k]
  {
    if i < j {
      RecordedForever(c, run, i, j - 1, k);
      RunKeepsInv(c, run, j - 1);
      assert NextAt(c, run, j);
      NextKeepsRecorded(c, run[j - 1], run[j], k);
    }
  }

  /** What a keyed process q can be while key k has had a recorded row since
      before it began. */
  predicate Late(r: Request, q: Pid, w: World, row: Row)
    requires q in w.pcs
  {
    && r.key in w.table && w.table[r.key] == row
    && q !in w.sent
    && match w.pcs[q]
       case Start => true
       case InsertFailed => true
       case Crashed => true
       case Finished(result) =>
         result == NotExecuted || result == RefusedOther
         || (Keyed(r) && result == AnswerExisting(r, map[r.key := row]))
       case _ => false
  }

  lemma LateStays(r: Request, q: Pid, w: World, s: Step, w': World, row: Row)
    requires Keyed(r) && q in w.pcs && row.envelope.Done? && Late(r, q, w, row) && Do(r, q, w, s) == Some(w')
    ensures Late(r, q, w', row)
  {
  }

  lemma LateStep(c: Config, w: World, w': World, q: Pid, row: Row)
    requires w.pcs.Keys == c.Keys && Next(c, w, w') && q in c && Keyed(c[q]) && row.envelope.Done?
    requires Late(c[q], q, w, row) && c[q].key in w'.table && w'.table[c[q].key] == row
    ensures q in w'.pcs && Late(c[q], q, w', row)
  {
    var p: Pid, s: Step :| p in c && p in w.pcs && Do(c[p], p, w, s) == Some(w');
    if p == q {
      LateStays(c[q], q, w, s, w', row);
    } else {
      StepKeepsOthers(c[p], p, w, s, w', q);
    }
  }

  /** REPLAY. A keyed request that begins after a result was recorded for its
      key is never sent; whatever answer it gets is the one computed from that
      record, a refusal, or nothing was to be executed. */
  lemma {:induction false} LateRequestNeverSent(c: Config, run: seq<World>, i: nat, j: nat, q: Pid)
    requires IsRun(c, run) && i <= j < |run| && q in c && Keyed(c[q])
    requires c[q].key in run[i].table && run[i].table[c[q].key].envelope.Done?
    requires q in run[i].pcs && run[i].pcs[q] == Start
    ensures q in run[j].pcs && Late(c[q], q, run[j], run[i].table[c[q].key])
  {
    if i == j {
      RunKeepsInv(c, run, i);
      assert ProcessOk(c[q], q, run[i]);
    } else {
      LateRequestNeverSent(c, run, i, j - 1, q);
      RecordedForever(c, run, i, j, c[q].key);
      assert run[j - 1].pcs.Keys == c.Keys by {
        RunKeepsInv(c, run, j - 1);
      }
      assert NextAt(c, run, j);
      LateStep(c, run[j - 1], run[j], q, run[i].table[c[q].key]);
    }
  }

  /** The same request asked again is answered by the pending refusal or by
      exactly the recorded data. */
  lemma SameRequestAnswer(r: Request, t: Table)
    requires Keyed(r) && r.key in t && t[r.key].command == r.command && r.fingerprint.value != ""
    requires match t[r.key].envelope
             case Pending(f) => f == r.fingerprint.value
             case Done(f, target, _) => f == r.fingerprint && target == r.target
    ensures AnswerExisting(r, t) ==
            if t[r.key].envelope.Pending? then RefusedPending else Replayed(t[r.key].envelope.data)
  {
  }

  /** Execution p has its key's row for good: it succeeded, ended or died without
      giving the row up. */
  predicate Blocks(r: Request, p: Pid, w: World)
    requires p in w.pcs
  {
    && Keyed(r) && Owns(w.table, r.key, r.command, p)
    && (w.pcs[p].Succeeded? || w.pcs[p].Finished? || w.pcs[p].Crashed?)
  }

  /** Every live execution whose call is over does, whatever became of it: it was
      recorded, its record failed, its outcome is unknown, or it died. */
  lemma LiveBlocks(r: Request, p: Pid, w: World)
    requires p in w.pcs && ProcessOk(r, p, w) && Keyed(r) && Live(w, p) && !w.pcs[p].Calling?
    ensures Blocks(r, p, w)
  {
  }

  /** What q can be while p blocks their key: it was not sent, and it was not
      answered by anything but a refusal or what p recorded. */
  predicate Blocked(r: Request, q: Pid, w: World)
    requires q in w.pcs
  {
    && q !in w.sent
    && match w.pcs[q]
       case Start => true
       case InsertFailed => true
       case Crashed => true
       case Finished(NotExecuted) => true
       case Finished(RefusedOther) => true
       case Finished(RefusedPending) => true
       case Finished(Replayed(data)) =>
         r.key in w.table && w.table[r.key].envelope.Done? && w.table[r.key].envelope.data == data
       case _ => false
  }

  lemma BlockerStays(r: Request, p: Pid, w: World, s: Step, w': World)
    requires p in w.pcs && ProcessOk(r, p, w) && Blocks(r, p, w) && Do(r, p, w, s) == Some(w')
    ensures Blocks(r, p, w')
  {
  }

  lemma BlockedStays(r: Request, q: Pid, w: World, s: Step, w': World)
    requires Keyed(r) && q in w.pcs && r.key in w.table && Blocked(r, q, w) && Do(r, q, w, s) == Some(w')
    ensures Blocked(r, q, w')
  {
  }

  /** p blocks the key, and q is blocked by it. */
  predicate Stuck(c: Config, w: World, p: Pid, q: Pid)
    requires p in c && q in c
  {
    p in w.pcs && q in w.pcs && Blocks(c[p], p, w) && Blocked(c[q], q, w)
  }

  lemma {:induction false} StuckForever(c: Config, run: seq<World>, i: nat, j: nat, p: Pid, q: Pid)
    requires IsRun(c, run) && i <= j < |run| && p in c && q in c && p != q && c[p].key == c[q].key && Keyed(c[q])
    requires Stuck(c, run[i], p, q)
    ensures Stuck(c, run[j], p, q)
  {
    if i < j {
      StuckForever(c, run, i, j - 1, p, q);
      assert Inv(c, run[j - 1]) by {
        RunKeepsInv(c, run, j - 1);
      }
      assert NextAt(c, run, j);
      BlockedStep(c, run[j - 1], run[j], p, q);
    }
  }

  lemma BlockedStep(c: Config, w: World, w': World, p: Pid, q: Pid)
    requires Inv(c, w) && Next(c, w, w') && p in c && q in c && p != q && c[p].key == c[q].key && Keyed(c[q])
    requires Stuck(c, w, p, q)
    ensures Stuck(c, w', p, q)
  {
    var a: Pid, s: Step :| a in c && a in w.pcs && Do(c[a], a, w, s) == Some(w');
    assert ProcessOk(c[p], p, w);
    if a == p {
      BlockerStays(c[p], p, w, s, w');
    } else {
      StepKeepsOthers(c[a], a, w, s, w', p);
      StepTouchesOnlyOwnRow(c[a], a, w, s, w');
    }
    if a == q {
      BlockedStays(c[q], q, w, s, w');
    } else {
      StepKeepsOthers(c[a], a, w, s, w', q);
      if w.table[c[q].key].envelope.Done? {
        NextKeepsRecorded(c, w, w', c[q].key);
      }
    }
  }

  /** NEVER A NEW CALL. Once an execution holds its key's row for good, a keyed
      request for that key that has not begun yet is never sent, in no
      continuation of the run; it can only be refused or get what was recorded. */
  lemma BlockedForever(c: Config, run: seq<World>, i: nat, j: nat, p: Pid, q: Pid)
    requires IsRun(c, run) && i <= j < |run| && p in c && q in c && p != q && c[p].key == c[q].key && Keyed(c[q])
    requires p in run[i].pcs && Blocks(c[p], p, run[i])
    requires q in run[i].pcs && run[i].pcs[q] == Start
    ensures p in run[j].pcs && q in run[j].pcs && Blocks(c[p], p, run[j]) && Blocked(c[q], q, run[j])
  {
    assert q !in run[i].sent by {
      RunKeepsInv(c, run, i);
      assert ProcessOk(c[q], q, run[i]);
    }
    StuckForever(c, run, i, j, p, q);
  }

  /** In particular after a live execution that crashed, was not recorded or has
      an unknown outcome: it stays live and keeps the key. */
  lemma PendingForever(c: Config, run: seq<World>, i: nat, j: nat, p: Pid, q: Pid)
    requires IsRun(c, run) && i <= j < |run| && p in c && q in c && p != q
    requires c[p].key == c[q].key && Keyed(c[p]) && Keyed(c[q])
    requires Live(run[i], p) && p in run[i].pcs && !run[i].pcs[p].Calling?
    requires q in run[i].pcs && run[i].pcs[q] == Start
    ensures p in run[j].pcs && Live(run[j], p) && Blocks(c[p], p, run[j])
    ensures q in run[j].pcs && Blocked(c[q], q, run[j])
  {
    assert Blocks(c[p], p, run[i]) by {
      RunKeepsInv(c, run, i);
      assert ProcessOk(c[p], p, run[i]);
      LiveBlocks(c[p], p, run[i]);
    }
    BlockedForever(c, run, i, j, p, q);
    LiveStays(c, run, i, j, p);
  }

  lemma {:induction false} LiveStays(c: Config, run: seq<World>, i: nat, j: nat, p: Pid)
    requires IsRun(c, run) && i <= j < |run| && p in c && p in run[i].pcs
    requires Live(run[i], p) && !run[i].pcs[p].Calling?
    ensures p in run[j].pcs && Live(run[j], p) && !run[j].pcs[p].Calling?
  {
    if i < j {
      var w, w' := run[j - 1], run[j];
      assert p in w.pcs && Live(w, p) && !w.pcs[p].Calling? by {
        LiveStays(c, run, i, j - 1, p);
      }
      assert ProcessOk(c[p], p, w) by {
        RunKeepsInv(c, run, j - 1);
      }
      assert NextAt(c, run, j);
      LiveStep(c, w, w', p);
    }
  }

  lemma LiveStep(c: Config, w: World, w': World, p: Pid)
    requires p in c && p in w.pcs && ProcessOk(c[p], p, w) && Next(c, w, w') && Live(w, p) && !w.pcs[p].Calling?
    ensures p in w'.pcs && Live(w', p) && !w'.pcs[p].Calling?
  {
    var a: Pid, s: Step :| a in c && a in w.pcs && Do(c[a], a, w, s) == Some(w');
    if a == p {
      LiveActor(c[p], p, w, s, w');
    } else {
      StepKeepsOthers(c[a], a, w, s, w', p);
    }
  }

  lemma LiveActor(r: Request, p: Pid, w: World, s: Step, w': World)
    requires p in w.pcs && ProcessOk(r, p, w) && Live(w, p) && !w.pcs[p].Calling? && Do(r, p, w, s) == Some(w')
    ensures Live(w', p) && !w'.pcs[p].Calling?
  {
  }

  /** The same request, answered while p blocks its key and no lookup fails, gets
      exactly the pending refusal, or what p's accepted call returned. */
  lemma SameRequestAnswered(c: Config, w: World, p: Pid, q: Pid, w': World)
    requires Inv(c, w) && p in c && q in c && p in w.pcs && q in w.pcs && c[p] == c[q]
    requires Blocks(c[p], p, w) && w.pcs[q] == InsertFailed
    requires Do(c[q], q, w, LookupExisting(NoFault)) == Some(w')
    ensures match w.table[c[p].key].envelope
            case Pending(_) => w'.pcs[q] == Finished(RefusedPending)
            case Done(_, _, data) =>
              w'.pcs[q] == Finished(Replayed(data)) && p in w.accepted && p in w.returned && data == w.returned[p]
  {
    assert RowOk(c, c[p].key, w);
  }

  /** Recording without a fault ends the execution with what its call returned, and
      stores exactly that under the key. */
  lemma RecordStoresResult(c: Config, w: World, p: Pid, w': World)
    requires Inv(c, w) && p in c && p in w.pcs && c[p].key != "" && w.pcs[p].Succeeded?
    requires Owns(w.table, c[p].key, c[p].command, p) || (c[p].key !in w.table && c[p].fingerprint.None?)
    requires Do(c[p], p, w, Record(NoFault)) == Some(w')
    ensures p in w.returned && w'.pcs[p] == Finished(Completed(w.returned[p])) && Stored(c[p], p, w', w.returned[p])
  {
    assert ProcessOk(c[p], p, w);
  }

  /** WHAT WAS RETURNED IS WHAT IS REPLAYED. Once an execution with a key has
      completed with some data, its key's row holds these data for ever. */
  lemma CompletedForever(c: Config, run: seq<World>, i: nat, j: nat, p: Pid, data: Data)
    requires IsRun(c, run) && i <= j < |run| && p in c && p in run[i].pcs && c[p].key != ""
    requires run[i].pcs[p] == Finished(Completed(data))
    ensures p in run[j].pcs && c[p].key in run[j].table && run[j].table[c[p].key].requestId == p
    ensures run[j].table[c[p].key].envelope == Done(c[p].fingerprint, c[p].target, data)
    ensures p in run[j].returned && run[j].returned[p] == data
  {
    assert Stored(c[p], p, run[i], data) by {
      RunKeepsInv(c, run, i);
      assert ProcessOk(c[p], p, run[i]);
    }
    RecordedForever(c, run, i, j, c[p].key);
    RunKeepsInv(c, run, j);
    assert RowOk(c, c[p].key, run[j]);
  }

  /** Whatever a request was replayed is what is recorded under its key. */
  lemma {:induction false} ReplayedIsRecorded(c: Config, run: seq<World>, j: nat, q: Pid, data: Data)
    requires IsRun(c, run) && j < |run| && q in c && q in run[j].pcs && run[j].pcs[q] == Finished(Replayed(data))
    ensures c[q].key in run[j].table && run[j].table[c[q].key].envelope.Done?
    ensures run[j].table[c[q].key].envelope.data == data
  {
    if j > 0 {
      var w, w' := run[j - 1], run[j];
      assert NextAt(c, run, j);
      if q in w.pcs && w.pcs[q] == w'.pcs[q] {
        ReplayedIsRecorded(c, run, j - 1, q, data);
        RecordedForever(c, run, j - 1, j, c[q].key);
      } else {
        var a: Pid, s: Step :| a in c && a in w.pcs && Do(c[a], a, w, s) == Some(w');
        if a != q {
          StepKeepsOthers(c[a], a, w, s, w', q);
        }
        assert ProcessOk(c[q], q, w) by {
          RunKeepsInv(c, run, j - 1);
        }
        ReplayComesFromRow(c[q], q, w, s, w', data);
      }
    }
  }

  lemma ReplayComesFromRow(r: Request, p: Pid, w: World, s: Step, w': World, data: Data)
    requires p in w.pcs && Do(r, p, w, s) == Some(w') && w'.pcs[p] == Finished(Replayed(data)) && w.pcs[p] != w'.pcs[p]
    requires ProcessOk(r, p, w)
    ensures r.key in w'.table && w'.table[r.key].envelope.Done? && w'.table[r.key].envelope.data == data
  {
  }

  /** So any request under the key of a completed execution that is ever replayed
      anything gets exactly what that execution returned. */
  lemma ReplaysTheCompleted(c: Config, run: seq<World>, j: nat, p: Pid, q: Pid, data: Data, replayed: Data)
    requires IsRun(c, run) && j < |run| && p in c && q in c && c[p].key == c[q].key != ""
    requires p in run[j].pcs && run[j].pcs[p] == Finished(Completed(data))
    requires q in run[j].pcs && run[j].pcs[q] == Finished(Replayed(replayed))
    ensures replayed == data
  {
    CompletedForever(c, run, j, j, p, data);
    ReplayedIsRecorded(c, run, j, q, replayed);
  }

  /** Nobody reuses a key for a different request unnoticed. */
  lemma DifferentRequestRefused(r: Request, t: Table)
    requires Keyed(r) && r.key in t
    requires t[r.key].command != r.command || match t[r.key].envelope
                                               case Pending(f) => f != "" && f != r.fingerprint.value
                                               case Done(f, _, _) => f != r.fingerprint
    ensures AnswerExisting(r, t) == RefusedOther
  {
  }

  /** A recorded result of another confirmed target is refused as well. */
  lemma DifferentTargetRefused(r: Request, t: Table)
    requires Keyed(r) && r.key in t && t[r.key].envelope.Done?
    requires r.target.Some? && t[r.key].envelope.target != r.target
    ensures AnswerExisting(r, t) == RefusedOther
  {
  }

  /** A definitive rejection frees the key: once its release has gone through,
      the request can be made again. */
  lemma RejectionFreesKey(r: Request, p: Pid, w: World)
    requires p in w.pcs && ProcessOk(r, p, w) && w.pcs[p] == Calling(true) && p !in w.accepted
    requires Owns(w.table, r.key, r.command, p) ==> w.table[r.key].envelope.Pending?
    ensures
      var rejected := Do(r, p, w, ReturnRejection);
      && rejected.Some?
      && var selected := Do(r, p, rejected.value, ReleaseSelect(NoFault));
         && selected.Some?
         && var released := Do(r, p, selected.value, ReleaseDelete(NoFault));
            && released.Some?
            && r.key !in released.value.table && released.value.pcs[p] == Finished(Rejected)
            && forall q | q in w.pcs && q != p && w.pcs[q] == Start ::
                 q in released.value.pcs && released.value.pcs[q] == Start
  {
  }

  /** What process p has come to, everything else being as it was. */
  predicate Became(p: Pid, w: World, w': World, pc: Pc, table: Table) {
    w'.pcs == w.pcs[p := pc] && w'.table == table
  }

  /** SUCCESS. An undisturbed request whose key is free is executed once, answers
      with what the call returned, and leaves it recorded under its key. */
  lemma FreshRequestSucceeds(r: Request, p: Pid, w: World, data: Data)
    returns (ready: World, called: World, accepted: World, returned: World, done: World)
    requires p in w.pcs && w.pcs[p] == Start && p !in w.sent && p !in w.rejected && r.key !in w.table
    ensures Do(r, p, w, if r.fingerprint.Some? && r.key != "" then InsertPending(NoFault) else LookupUnreserved(NoFault)) == Some(ready)
    ensures p in ready.pcs && Do(r, p, ready, Call) == Some(called)
    ensures p in called.pcs && Do(r, p, called, Accept) == Some(accepted)
    ensures p in accepted.pcs && Do(r, p, accepted, ReturnSuccess(data)) == Some(returned)
    ensures p in returned.pcs && Do(r, p, returned, Record(NoFault)) == Some(done)
    ensures Became(p, w, done, Finished(Completed(data)),
              if r.key == "" then w.table else w.table[r.key := Row(r.command, p, Done(r.fingerprint, r.target, data))])
    ensures done.sent == w.sent + {p} && done.accepted == w.accepted + {p} && done.rejected == w.rejected
  {
    ready := Do(r, p, w, if r.fingerprint.Some? && r.key != "" then InsertPending(NoFault) else LookupUnreserved(NoFault)).value;
    called := Do(r, p, ready, Call).value;
    accepted := Do(r, p, called, Accept).value;
    returned := Do(r, p, accepted, ReturnSuccess(data)).value;
    done := Do(r, p, returned, Record(NoFault)).value;
  }

  /** The row records the success of this very request. */
  predicate RecordOf(r: Request, row: Row) {
    && row.command == r.command && row.envelope.Done? && row.envelope.fingerprint == r.fingerprint
    && (r.target.Some? ==> row.envelope.target == r.target)
  }

  /** The row is another command's, or records another request or target. */
  predicate OfAnother(r: Request, row: Row) {
    || row.command != r.command
    || (row.envelope.Done? && row.envelope.fingerprint != r.fingerprint)
    || (row.envelope.Done? && r.target.Some? && row.envelope.target != r.target)
  }

  /** A keyed request whose key is taken changes nothing and is not sent: it gets
      the pending refusal or the record of the very same request, and is refused
      for any other. */
  lemma TakenKeyAnswers(r: Request, p: Pid, w: World) returns (failed: World, answered: World, result: Result)
    requires p in w.pcs && w.pcs[p] == Start && r.fingerprint.Some? && r.key != "" && r.key in w.table
    ensures Do(r, p, w, InsertPending(NoFault)) == Some(failed)
    ensures p in failed.pcs && Do(r, p, failed, LookupExisting(NoFault)) == Some(answered)
    ensures answered == w.(pcs := w.pcs[p := Finished(result)])
    ensures var row := w.table[r.key];
      && (row.command == r.command && row.envelope == Pending(r.fingerprint.value) ==> result == RefusedPending)
      && (RecordOf(r, row) ==> result == Replayed(row.envelope.data))
      && (OfAnother(r, row) ==> result == RefusedOther)
  {
    failed := Do(r, p, w, InsertPending(NoFault)).value;
    answered := Do(r, p, failed, LookupExisting(NoFault)).value;
    result := answered.pcs[p].result;
  }

  /** Without a fingerprint a stored result of the same command is answered from,
      and another command's is refused. */
  lemma UnkeyedAnswers(r: Request, p: Pid, w: World) returns (answered: World, result: Result)
    requires p in w.pcs && w.pcs[p] == Start && r.fingerprint.None? && r.key != "" && r.key in w.table
    ensures Do(r, p, w, LookupUnreserved(NoFault)) == Some(answered)
    ensures answered == w.(pcs := w.pcs[p := Finished(result)])
    ensures var row := w.table[r.key];
      && (row.command == r.command && row.envelope.Done? && (r.target.Some? ==> row.envelope.target == r.target) ==>
            result == Replayed(row.envelope.data))
      && (row.command == r.command && row.envelope.Pending? ==> result == if r.target.None? then ReplayedMarker else RefusedOther)
      && (row.command != r.command || (row.envelope.Done? && r.target.Some? && row.envelope.target != r.target) ==>
            result == RefusedOther)
  {
    answered := Do(r, p, w, LookupUnreserved(NoFault)).value;
    result := answered.pcs[p].result;
  }

  /** Giving up before the call, or a definitive rejection, leaves no trace of the
      reservation. */
  lemma GivingUpLeavesNothing(r: Request, p: Pid, w: World, rejected: bool)
    returns (stopped: World, selected: World, released: World)
    requires p in w.pcs && w.pcs[p] == (if rejected then Calling(true) else Ready(true)) && p !in w.accepted
    requires Owns(w.table, r.key, r.command, p) && w.table[r.key].envelope.Pending?
    ensures Do(r, p, w, if rejected then ReturnRejection else Abandon) == Some(stopped)
    ensures p in stopped.pcs && Do(r, p, stopped, ReleaseSelect(NoFault)) == Some(selected)
    ensures p in selected.pcs && Do(r, p, selected, ReleaseDelete(NoFault)) == Some(released)
    ensures Became(p, w, released, Finished(if rejected then Rejected else NotExecuted), w.table - {r.key})
  {
    stopped := Do(r, p, w, if rejected then ReturnRejection else Abandon).value;
    selected := Do(r, p, stopped, ReleaseSelect(NoFault)).value;
    released := Do(r, p, selected, ReleaseDelete(NoFault)).value;
  }

  /** A statement that fails without effect leaves the table as it was; one whose
      effect an error hides changes it as if nothing had failed. Either way the
      process goes on as if it had failed. */
  lemma FaultsExactly(r: Request, p: Pid, w: World)
    requires p in w.pcs && Keyed(r)
    ensures w.pcs[p] == Start ==>
      && Do(r, p, w, InsertPending(Lost)) == Some(w.(pcs := w.pcs[p := InsertFailed]))
      && (r.key !in w.table ==> Do(r, p, w, InsertPending(Hidden)) == Some(
            w.(table := w.table[r.key := Row(r.command, p, Pending(r.fingerprint.value))], pcs := w.pcs[p := InsertFailed])))
    ensures w.pcs[p] == InsertFailed ==> forall fault | fault != NoFault ::
      Do(r, p, w, LookupExisting(fault)) == Some(w.(pcs := w.pcs[p := Finished(RefusedOther)]))
    ensures w.pcs[p].Succeeded? && w.pcs[p].reserved && Owns(w.table, r.key, r.command, p) ==>
      && Do(r, p, w, Record(Lost)) == Some(w.(pcs := w.pcs[p := Finished(CommittedUnrecorded)]))
      && Do(r, p, w, Record(Hidden)) == Some(
           w.(table := w.table[r.key := Row(r.command, p, Done(r.fingerprint, r.target, w.pcs[p].data))],
              pcs := w.pcs[p := Finished(CommittedUnrecorded)]))
    ensures w.pcs[p].Releasing? ==> forall fault | fault != NoFault ::
      Do(r, p, w, ReleaseSelect(fault)) == Some(w.(pcs := w.pcs[p := Finished(w.pcs[p].after)]))
    ensures w.pcs[p].Deleting? ==>
      Do(r, p, w, ReleaseDelete(Lost)) == Some(w.(pcs := w.pcs[p := Finished(w.pcs[p].after)]))
  {
  }

  /** Which statement can come next where. */
  lemma EnabledExactly(r: Request, p: Pid, w: World, s: Step)
    requires p in w.pcs && ProcessOk(r, p, w)
    ensures Do(r, p, w, s).Some? <==>
      match w.pcs[p]
      case Start => s.DryRun? || s.Crash? || (s.LookupUnreserved? && !Keyed(r))
                    || (s.InsertPending? && Keyed(r) && (s.fault.Hidden? ==> r.key !in w.table))
      case InsertFailed => s.Crash? || (s.LookupExisting? && Keyed(r))
      case Ready(_) => s.Crash? || s.Abandon? || s.Call?
      case Calling(_) => s.Crash? || s.Accept? || s.ReturnUnknown?
                         || (s.ReturnSuccess? && p in w.accepted) || (s.ReturnRejection? && p !in w.accepted)
      case Succeeded(_, _) => s.Crash? || s.Record? || s.Accept?
      case Releasing(_) => s.Crash? || s.ReleaseSelect?
      case Deleting(_, _) => s.Crash? || s.ReleaseDelete?
      case Finished(_) => s.Crash? || (s.Accept? && Live(w, p))
      case Crashed => s.Crash? || (s.Accept? && Live(w, p))
  {
  }

  /** At most one execution with key k is live, at every point of every run. */
  ghost predicate Safe(c: Config, k: Key) {
    forall run: seq<World>, i: nat, p: Pid, q: Pid ::
      (IsRun(c, run) && i < |run| && p in c && q in c && c[p].key == k && c[q].key == k
       && Live(run[i], p) && Live(run[i], q)) ==> p == q
  }

  ghost predicate Alone(c: Config, k: Key) {
    forall p, q | p in c && q in c && c[p].key == k && c[q].key == k :: p == q
  }

  function StartingWorld(c: Config): World {
    World(map[], map p | p in c :: Start, {}, {}, {}, map[])
  }

  function FirstStep(r: Request): Step {
    if Keyed(r) then InsertPending(NoFault) else LookupUnreserved(NoFault)
  }

  /** Two requests of which the first carries no fingerprint, or no key at all,
      both get sent. */
  lemma BlankFingerprintBreaksIt(c: Config, k: Key, p: Pid, q: Pid)
    requires p in c && q in c && p != q && c[p].key == k && c[q].key == k && !Keyed(c[p])
    ensures !Safe(c, k)
  {
    var w0 := StartingWorld(c);
    var w1 := Goto(w0, p, Ready(false));
    assert Do(c[p], p, w0, FirstStep(c[p])) == Some(w1);
    var w2 := Do(c[q], q, w1, FirstStep(c[q])).value;
    var w3 := Do(c[p], p, w2, Call).value;
    var w4 := Do(c[q], q, w3, Call).value;
    assert Init(c, w0);
    StepIsNext(c, w0, p, FirstStep(c[p]), w1);
    StepIsNext(c, w1, q, FirstStep(c[q]), w2);
    StepIsNext(c, w2, p, Call, w3);
    StepIsNext(c, w3, q, Call, w4);
    var run := FourSteps(c, w0, w1, w2, w3, w4);
    assert Live(run[4], p) && Live(run[4], q);
  }

  lemma StepIsNext(c: Config, w: World, p: Pid, s: Step, w': World)
    requires p in c && p in w.pcs && Do(c[p], p, w, s) == Some(w')
    ensures Next(c, w, w')
  {
  }

  lemma FourSteps(c: Config, w0: World, w1: World, w2: World, w3: World, w4: World) returns (run: seq<World>)
    requires Init(c, w0) && Next(c, w0, w1) && Next(c, w1, w2) && Next(c, w2, w3) && Next(c, w3, w4)
    ensures IsRun(c, run) && |run| == 5 && run[4] == w4
  {
    run := [w0, w1, w2, w3, w4];
    assert NextAt(c, run, 1) && NextAt(c, run, 2) && NextAt(c, run, 3) && NextAt(c, run, 4);
  }

  /** The exact condition: a key is protected in every run if and only if it is not
      blank and every request using it carries a fingerprint, or only one request
      uses it. */
  lemma ProtectedExactly(c: Config, k: Key)
    ensures Safe(c, k) <==> (k != "" && AllKeyed(c, k)) || Alone(c, k)
  {
    if k != "" && AllKeyed(c, k) {
      forall run: seq<World>, i: nat, p: Pid, q: Pid |
        IsRun(c, run) && i < |run| && p in c && q in c && c[p].key == k && c[q].key == k
        && Live(run[i], p) && Live(run[i], q)
        ensures p == q
      {
        AtMostOneLive(c, run, i, p, q);
      }
    } else if !Alone(c, k) {
      var p, q :| p in c && q in c && p != q && c[p].key == k && c[q].key == k && !Keyed(c[p]);
      BlankFingerprintBreaksIt(c, k, p, q);
    }
  }
}
