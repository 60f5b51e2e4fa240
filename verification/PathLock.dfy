/** The reference-counted lock per database path, used by any number of threads
    at once. Every method is one critical section or one mutex operation. */
module PathLock {
  import opened Wrappers

  type Thread = int

  /** A lock entry on the heap; only the registry decides whether it is in use. */
  datatype Entry = Entry(refs: int, holder: Option<Thread>)

  /** Where one call of lockBackfillDBPath, or of the function it returns, is. */
  datatype Phase =
    | Outside
    | Waiting(key: string, entry: nat)   // registered, not yet past mu.Lock
    | Holding(key: string, entry: nat)
    | Released(key: string, entry: nat)  // past mu.Unlock, still registered

  datatype State = State(locks: map<string, nat>, entries: seq<Entry>, threads: map<Thread, Phase>)

  const INITIAL := State(map[], [], map[])

  function PhaseOf(s: State, t: Thread): Phase {
    if t in s.threads then s.threads[t] else Outside
  }

  datatype Action = Register(t: Thread, key: string) | Acquire(t: Thread) | Unlock(t: Thread) | Deregister(t: Thread)

  predicate Enabled(s: State, a: Action) {
    match a
    case Register(t, _) => PhaseOf(s, t).Outside?
    case Acquire(t) =>
      PhaseOf(s, t).Waiting? && PhaseOf(s, t).entry < |s.entries| && s.entries[PhaseOf(s, t).entry].holder.None?
    case Unlock(t) => PhaseOf(s, t).Holding? && PhaseOf(s, t).entry < |s.entries|
    case Deregister(t) => PhaseOf(s, t).Released? && PhaseOf(s, t).entry < |s.entries|
  }

  function Do(s: State, a: Action): State
    requires Enabled(s, a)
  {
    match a
    case Register(t, k) =>
      if k in s.locks && s.locks[k] < |s.entries| then
        var e := s.locks[k];
        s.(entries := s.entries[e := s.entries[e].(refs := s.entries[e].refs + 1)],
           threads := s.threads[t := Waiting(k, e)])
      else
        State(s.locks[k := |s.entries|], s.entries + [Entry(1, None)], s.threads[t := Waiting(k, |s.entries|)])
    case Acquire(t) =>
      var p := PhaseOf(s, t);
      s.(entries := s.entries[p.entry := s.entries[p.entry].(holder := Some(t))],
         threads := s.threads[t := Holding(p.key, p.entry)])
    case Unlock(t) =>
      var p := PhaseOf(s, t);
      s.(entries := s.entries[p.entry := s.entries[p.entry].(holder := None)],
         threads := s.threads[t := Released(p.key, p.entry)])
    case Deregister(t) =>
      var p := PhaseOf(s, t);
      var refs := s.entries[p.entry].refs - 1;
      State(if refs == 0 then s.locks - {p.key} else s.locks,
            s.entries[p.entry := s.entries[p.entry].(refs := refs)],
            s.threads[t := Outside])
  }

  /** The threads registered for a key and not yet deregistered. */
  function Users(s: State, k: string): set<Thread> {
    set t | t in s.threads && !s.threads[t].Outside? && s.threads[t].key == k
  }

  ghost predicate EntriesExist(s: State) {
    && (forall k | k in s.locks :: s.locks[k] < |s.entries|)
    && (forall k, l | k in s.locks && l in s.locks && k != l :: s.locks[k] != s.locks[l])
  }

  /** Every waiter, holder and releaser refers to the current registry entry. */
  ghost predicate AllCurrent(s: State) {
    forall t | t in s.threads && !s.threads[t].Outside? ::
      s.threads[t].key in s.locks && s.locks[s.threads[t].key] == s.threads[t].entry
  }

  /** The count is the number of users, and an entry without users is gone. */
  ghost predicate CountsUsers(s: State)
    requires EntriesExist(s)
  {
    forall k | k in s.locks :: s.entries[s.locks[k]].refs == |Users(s, k)| && Users(s, k) != {}
  }

  /** The mutex of an entry in use is held by exactly the thread that thinks so. */
  ghost predicate HoldersAgree(s: State)
    requires EntriesExist(s)
  {
    && (forall t | t in s.threads && s.threads[t].Holding? && s.threads[t].key in s.locks ::
          s.entries[s.locks[s.threads[t].key]].holder == Some(t))
    && (forall k | k in s.locks && s.entries[s.locks[k]].holder.Some? ::
          s.entries[s.locks[k]].holder.value in s.threads
          && s.threads[s.entries[s.locks[k]].holder.value] == Holding(k, s.locks[k]))
  }

  ghost predicate Inv(s: State) {
    EntriesExist(s) && AllCurrent(s) && CountsUsers(s) && HoldersAgree(s)
  }

  /** How a step changes the users of a key. */
  lemma UsersAfter(s: State, a: Action, k: string)
    requires Enabled(s, a)
    ensures Users(Do(s, a), k) ==
            match a
            case Register(t, key) => Users(s, k) + if key == k then {t} else {}
            case Deregister(t) => Users(s, k) - {t}
            case _ => Users(s, k)
  {
  }

  lemma NobodyUses(s: State, k: string)
    requires AllCurrent(s) && k !in s.locks
    ensures Users(s, k) == {}
  {
    forall t ensures t !in Users(s, k) {
    }
  }

  lemma RegisterCounts(s: State, t: Thread, k: string, l: string)
    requires Inv(s) && Enabled(s, Register(t, k)) && EntriesExist(Do(s, Register(t, k)))
    requires l in Do(s, Register(t, k)).locks
    ensures var s' := Do(s, Register(t, k)); s'.entries[s'.locks[l]].refs == |Users(s', l)| && Users(s', l) != {}
  {
    var s' := Do(s, Register(t, k));
    UsersAfter(s, Register(t, k), l);
    if l == k {
      assert t !in Users(s, k) && t in Users(s', k);
      if k !in s.locks {
        NobodyUses(s, k);
      }
    } else {
      assert l in s.locks && s'.entries[s'.locks[l]] == s.entries[s.locks[l]];
    }
  }

  lemma RegisterKeepsPlaces(s: State, t: Thread, k: string)
    requires Inv(s) && Enabled(s, Register(t, k))
    ensures EntriesExist(Do(s, Register(t, k))) && AllCurrent(Do(s, Register(t, k)))
  {
  }

  lemma RegisterKeepsHolders(s: State, t: Thread, k: string)
    requires Inv(s) && Enabled(s, Register(t, k)) && EntriesExist(Do(s, Register(t, k)))
    ensures HoldersAgree(Do(s, Register(t, k)))
  {
    var s' := Do(s, Register(t, k));
    assert forall u | u in s.threads && s.threads[u].Holding? :: u in s'.threads && s'.threads[u] == s.threads[u];
    forall l | l in s'.locks && s'.entries[s'.locks[l]].holder.Some?
      ensures
        && s'.entries[s'.locks[l]].holder.value in s'.threads
        && s'.threads[s'.entries[s'.locks[l]].holder.value] == Holding(l, s'.locks[l])
    {
      assert l in s.locks && s.locks[l] == s'.locks[l];
      assert s.entries[s.locks[l]].holder == s'.entries[s'.locks[l]].holder;
    }
  }

  lemma RegisterKeepsInv(s: State, t: Thread, k: string)
    requires Inv(s) && Enabled(s, Register(t, k))
    ensures Inv(Do(s, Register(t, k)))
  {
    var s' := Do(s, Register(t, k));
    RegisterKeepsPlaces(s, t, k);
    RegisterKeepsHolders(s, t, k);
    forall l | l in s'.locks ensures s'.entries[s'.locks[l]].refs == |Users(s', l)| && Users(s', l) != {} {
      RegisterCounts(s, t, k, l);
    }
  }

  lemma MutexKeepsInv(s: State, a: Action)
    requires Inv(s) && Enabled(s, a) && (a.Acquire? || a.Unlock?)
    ensures Inv(Do(s, a))
  {
    var s' := Do(s, a);
    forall l | l in s'.locks ensures s'.entries[s'.locks[l]].refs == |Users(s', l)| && Users(s', l) != {} {
      UsersAfter(s, a, l);
    }
  }

  lemma DeregisterCounts(s: State, t: Thread, l: string)
    requires Inv(s) && Enabled(s, Deregister(t)) && EntriesExist(Do(s, Deregister(t)))
    requires l in Do(s, Deregister(t)).locks
    ensures var s' := Do(s, Deregister(t)); s'.entries[s'.locks[l]].refs == |Users(s', l)| && Users(s', l) != {}
  {
    var s', k := Do(s, Deregister(t)), PhaseOf(s, t).key;
    UsersAfter(s, Deregister(t), l);
    if l == k {
      assert t in Users(s, k) && |Users(s', k)| == |Users(s, k)| - 1;
      assert |Users(s', k)| == 0 <==> Users(s', k) == {};
    } else {
      assert t !in Users(s, l);
    }
  }

  lemma DeregisterKeepsPlaces(s: State, t: Thread)
    requires Inv(s) && Enabled(s, Deregister(t))
    ensures EntriesExist(Do(s, Deregister(t))) && AllCurrent(Do(s, Deregister(t)))
  {
    var s', k := Do(s, Deregister(t)), PhaseOf(s, t).key;
    UsersAfter(s, Deregister(t), k);
    assert t in Users(s, k) && |Users(s', k)| == |Users(s, k)| - 1;
    forall u | u in s'.threads && !s'.threads[u].Outside?
      ensures s'.threads[u].key in s'.locks && s'.locks[s'.threads[u].key] == s'.threads[u].entry
    {
      if s'.threads[u].key == k {
        assert u in Users(s', k);
      }
    }
  }

  lemma DeregisterKeepsInv(s: State, t: Thread)
    requires Inv(s) && Enabled(s, Deregister(t))
    ensures Inv(Do(s, Deregister(t)))
  {
    var s' := Do(s, Deregister(t));
    DeregisterKeepsPlaces(s, t);
    forall l | l in s'.locks ensures s'.entries[s'.locks[l]].refs == |Users(s', l)| && Users(s', l) != {} {
      DeregisterCounts(s, t, l);
    }
  }

  /** Any interleaving of any number of threads over any keys. */
  ghost predicate IsRun(run: seq<State>) {
    && |run| > 0 && run[0] == INITIAL
    && forall i | 0 < i < |run| :: Steps(run[i - 1], run[i])
  }

  ghost predicate Steps(s: State, s': State) {
    exists a :: Enabled(s, a) && s' == Do(s, a)
  }

  lemma {:induction false} RunKeepsInv(run: seq<State>, i: nat)
    requires IsRun(run) && i < |run|
    ensures Inv(run[i])
  {
    if i > 0 {
      RunKeepsInv(run, i - 1);
      assert Steps(run[i - 1], run[i]);
      var a :| Enabled(run[i - 1], a) && run[i] == Do(run[i - 1], a);
      match a
      case Register(t, k) => RegisterKeepsInv(run[i - 1], t, k);
      case Deregister(t) => DeregisterKeepsInv(run[i - 1], t);
      case _ => MutexKeepsInv(run[i - 1], a);
    }
  }

  /** MUTUAL EXCLUSION. No two threads hold one path at the same time. */
  lemma MutualExclusion(run: seq<State>, i: nat, t: Thread, u: Thread)
    requires IsRun(run) && i < |run|
    requires PhaseOf(run[i], t).Holding? && PhaseOf(run[i], u).Holding?
    requires PhaseOf(run[i], t).key == PhaseOf(run[i], u).key
    ensures t == u
  {
    RunKeepsInv(run, i);
  }

  /** A path is in the registry exactly while somebody uses it, with their number
      as its count; once everybody has left the registry is empty. */
  lemma RegistryIsExact(run: seq<State>, i: nat, k: string)
    requires IsRun(run) && i < |run|
    ensures k in run[i].locks <==> Users(run[i], k) != {}
    ensures k in run[i].locks ==>
              run[i].locks[k] < |run[i].entries| && run[i].entries[run[i].locks[k]].refs == |Users(run[i], k)| > 0
    ensures (forall t | t in run[i].threads :: run[i].threads[t].Outside?) ==> run[i].locks == map[]
  {
    RunKeepsInv(run, i);
    var s := run[i];
    if k !in s.locks {
      NobodyUses(s, k);
    }
    if forall t | t in s.threads :: s.threads[t].Outside? {
      forall l ensures l !in s.locks {
        NoThreadNoUser(s, l);
      }
    }
  }

  lemma NoThreadNoUser(s: State, k: string)
    requires forall t | t in s.threads :: s.threads[t].Outside?
    ensures Users(s, k) == {}
  {
    forall t ensures t !in Users(s, k) {
    }
  }

  /** NO LOST WAKEUP. A waiter can go on at once, or somebody holds the very
      entry it waits for and can let it go. */
  lemma WaiterIsServed(run: seq<State>, i: nat, t: Thread)
    requires IsRun(run) && i < |run| && PhaseOf(run[i], t).Waiting?
    ensures
      || Enabled(run[i], Acquire(t))
      || exists u :: Enabled(run[i], Unlock(u)) && PhaseOf(run[i], u).entry == PhaseOf(run[i], t).entry
  {
    RunKeepsInv(run, i);
    var s, p := run[i], PhaseOf(run[i], t);
    if s.entries[p.entry].holder.Some? {
      var u := s.entries[p.entry].holder.value;
      assert s.locks[p.key] == p.entry;
      assert PhaseOf(s, u) == Holding(p.key, p.entry);
      assert Enabled(s, Unlock(u));
    }
  }

  /** The registry object. A thread's own phase is bookkeeping only. */
  class Registry {
    var locks: map<string, nat>
    var entries: seq<Entry>
    ghost var threads: map<Thread, Phase>

    ghost function View(): State
      reads this
    {
      State(locks, entries, threads)
    }

    constructor ()
      ensures View() == INITIAL && Inv(View())
    {
      locks, entries, threads := map[], [], map[];
    }

    /** Under the registry's mutex: find or create the entry, and count. */
    method Enter(t: Thread, key: string) returns (entry: nat)
      requires Inv(View()) && Enabled(View(), Register(t, key))
      modifies this
      ensures Inv(View()) && View() == Do(old(View()), Register(t, key))
      ensures PhaseOf(View(), t) == Waiting(key, entry)
    {
      assert key in locks ==> locks[key] < |entries|;
      RegisterKeepsInv(View(), t, key);
      entry := Count(t, key);
    }

    method Count(t: Thread, key: string) returns (entry: nat)
      requires Enabled(View(), Register(t, key)) && (key in locks ==> locks[key] < |entries|)
      modifies this
      ensures View() == Do(old(View()), Register(t, key)) && PhaseOf(View(), t) == Waiting(key, entry)
    {
      if key !in locks {
        locks, entries := locks[key := |entries|], entries + [Entry(0, None)];
        assert entries[|entries| - 1 := Entry(1, None)] == old(entries) + [Entry(1, None)];
      }
      entry := locks[key];
      entries := entries[entry := entries[entry].(refs := entries[entry].refs + 1)];
      threads := threads[t := Waiting(key, entry)];
    }

    /** mu.Lock returning; the thread was blocked while the mutex was taken. */
    method Lock(t: Thread, key: string, entry: nat)
      requires Inv(View()) && Enabled(View(), Acquire(t)) && PhaseOf(View(), t) == Waiting(key, entry)
      modifies this
      ensures Inv(View()) && View() == Do(old(View()), Acquire(t))
    {
      MutexKeepsInv(View(), Acquire(t));
      entries := entries[entry := entries[entry].(holder := Some(t))];
      threads := threads[t := Holding(key, entry)];
    }

    method Release(t: Thread, key: string, entry: nat)
      requires Inv(View()) && PhaseOf(View(), t) == Holding(key, entry)
      modifies this
      ensures Inv(View()) && View() == Do(old(View()), Unlock(t))
    {
      assert entry < |entries|;
      MutexKeepsInv(View(), Unlock(t));
      entries := entries[entry := entries[entry].(holder := None)];
      threads := threads[t := Released(key, entry)];
    }

    /** Under the registry's mutex again: the last user removes the entry. */
    method Leave(t: Thread, key: string, entry: nat)
      requires Inv(View()) && PhaseOf(View(), t) == Released(key, entry)
      modifies this
      ensures Inv(View()) && View() == Do(old(View()), Deregister(t))
      ensures forall k | k != key && k in old(locks) :: k in locks && locks[k] == old(locks[k])
    {
      assert entry < |entries|;
      DeregisterKeepsInv(View(), t);
      entries := entries[entry := entries[entry].(refs := entries[entry].refs - 1)];
      if entries[entry].refs == 0 {
        locks := locks - {key};
      }
      threads := threads[t := Outside];
    }
  }
}
