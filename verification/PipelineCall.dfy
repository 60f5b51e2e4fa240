/** The Telegram call of the write pipeline, made through the write-ahead ledger:
    what the ledger reports is what the at-most-once protocol assumes. */
module PipelineCall {
  import opened Wrappers
  import opened AtMostOnce
  import L = WriteLedger

  /** Every action is one mutation, except that a kick unbans the member again. */
  datatype Action = OneMutation | Kick

  /** A kick whose second half fails is a committed write, whatever that failure was. */
  method RunKick(j: L.Invoker) returns (v: L.Verdict)
    requires j.Valid() && j.Timely() && !j.accepted
    modifies j, j.window
    ensures j.Valid() && j.Timely() && old(j.trace) <= j.trace
    ensures v == L.DefinitiveRejection ==> !L.AppliedSince(j.trace, |old(j.trace)|)
    ensures v == L.Done || v == L.CommittedWrite ==> L.AppliedSince(j.trace, |old(j.trace)|)
  {
    ghost var start := |j.trace|;
    var done;
    ghost var reserved, sent;
    v, done, reserved := L.RunAction(j, 1);
    if v == L.Done {
      ghost var earlier := j.trace;
      v, sent, reserved := j.Invoke();
      L.AppliedGrows(earlier, j.trace, start);
      if v != L.Done {
        v := L.CommittedWrite;
      }
    }
  }

  /** How the pipeline goes on: only a definitive rejection gives the key up. */
  function StepOf(v: L.Verdict, data: string): Step {
    match v
    case Done => ReturnSuccess(data)
    case DefinitiveRejection => ReturnRejection
    case _ => ReturnUnknown
  }

  /** DISCHARGED. Process p makes its call in world w. If anything was applied
      Telegram has accepted it, and then the step its verdict leads to is one the
      protocol allows: in particular a rejected execution was not accepted. */
  method CallThroughLedger(r: Request, p: Pid, ghost w: World, action: Action, j: L.Invoker, data: string)
    returns (v: L.Verdict, ghost called: World)
    requires p in w.pcs && ProcessOk(r, p, w) && w.pcs[p].Calling? && p !in w.accepted
    requires j.Valid() && j.Timely() && !j.accepted
    modifies j, j.window
    ensures called == if L.AppliedSince(j.trace, |old(j.trace)|) then w.(accepted := w.accepted + {p}) else w
    ensures L.AppliedSince(j.trace, |old(j.trace)|) ==> Do(r, p, w, Accept) == Some(called)
    ensures Do(r, p, called, StepOf(v, data)).Some?
    ensures ProcessOk(r, p, Do(r, p, called, StepOf(v, data)).value)
    ensures v == L.DefinitiveRejection ==> p !in called.accepted
  {
    var done;
    ghost var reserved;
    match action {
      case OneMutation => v, done, reserved := L.RunAction(j, 1);
      case Kick => v := RunKick(j);
    }
    called := if L.AppliedSince(j.trace, |old(j.trace)|) then w.(accepted := w.accepted + {p}) else w;
    CallKeepsOk(r, p, w, called, StepOf(v, data));
  }

  lemma CallKeepsOk(r: Request, p: Pid, w: World, called: World, s: Step)
    requires p in w.pcs && ProcessOk(r, p, w) && w.pcs[p].Calling?
    requires called == w || called == w.(accepted := w.accepted + {p})
    requires s.ReturnSuccess? || s.ReturnRejection? || s.ReturnUnknown?
    requires s.ReturnSuccess? ==> p in called.accepted
    requires s.ReturnRejection? ==> p !in called.accepted
    ensures ProcessOk(r, p, called) && Do(r, p, called, s).Some? && ProcessOk(r, p, Do(r, p, called, s).value)
  {
    assert Do(r, p, w, Accept) == Some(w.(accepted := w.accepted + {p}));
    StepKeepsActorOk(r, p, w, Accept, w.(accepted := w.accepted + {p}));
    StepKeepsActorOk(r, p, called, s, Do(r, p, called, s).value);
  }
}
