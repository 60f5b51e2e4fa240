/** Moving a public entry to a private name before touching it, and the two
    ways back: restoring it and deleting it. */
module Quarantine {
  import opened Wrappers
  import opened AnchoredDirectory

  /** Some private name holds the file id. */
  ghost predicate HeldPrivately(t: Tree, id: Identity) {
    exists q :: q in t.priv && t.priv[q].id == id
  }

  /** From index start on, the log only shuffles entries between the public
      name and private names, replacing nothing. */
  ghost predicate ShufflesOnly(log: seq<Op>, start: nat, name: Name) {
    forall i | start <= i < |log| ::
      && log[i].Renamed? && log[i].over.None?
      && ((log[i].from == name && log[i].to.Private?) || (log[i].from.Private? && log[i].to == name))
  }

  method RandomPrivateName(dir: Directory) returns (token: nat, err: Err)
    ensures err in {{}, {IO}}
    ensures dir.faultless ==> err == {} && token !in dir.tree.priv
  {
    token := *;
    err := {};
    var fails: bool := *;
    if dir.faultless {
      ghost var bound := UpperBound(dir.tree.priv.Keys);
      assert bound !in dir.tree.priv;
      token :| token !in dir.tree.priv;
    } else if fails {
      err := {IO};
    }
  }

  lemma {:induction false} UpperBound(taken: set<nat>) returns (bound: nat)
    ensures forall t | t in taken :: t < bound
  {
    bound := 0;
    if taken != {} {
      var some :| some in taken;
      var rest := UpperBound(taken - {some});
      bound := if rest <= some then some + 1 else rest;
      assert forall t | t in taken :: t == some || t in taken - {some};
    }
  }

  /** The name holds the regular file id. */
  predicate Shows(t: Tree, n: Name, id: Identity) {
    t.Get(n).Some? && t.Get(n).value.regular && t.Get(n).value.id == id
  }

  method ValidateNamedRegular(dir: Directory, n: Name, expected: Identity) returns (err: Err)
    requires dir.Valid()
    modifies dir
    ensures dir.Undisturbed()
    ensures err <= {DestinationChanged, UnsafeDestination, IO}
    ensures IO in err ==> DestinationChanged in err && !dir.faultless
    ensures IO !in err ==>
      err == match dir.tree.Get(n)
             case None => {DestinationChanged}
             case Some(e) => if !e.regular then {UnsafeDestination} else if e.id != expected then {DestinationChanged} else {}
  {
    var entry;
    entry, err := dir.Lstat(n);
    if err != {} {
      if NotExist in err {
        return {DestinationChanged};
      }
      return {DestinationChanged} + err;
    }
    if !entry.regular {
      return {UnsafeDestination};
    }
    if entry.id != expected {
      return {DestinationChanged};
    }
  }

  lemma ThereAndBack(t: Tree, name: Name, q: nat)
    requires name.Public? && t.Get(name).Some? && q !in t.priv
    ensures var e := t.Get(name).value;
      t.Drop(name).Put(Private(q), e).Drop(Private(q)).Put(name, e) == t
  {
    var e := t.Get(name).value;
    assert (t.pub - {name.component})[name.component := e] == t.pub;
    assert t.priv[q := e] - {q} == t.priv;
  }

  /** Checks a captured entry and puts a wrong one back. */
  method ConfirmCaptured(dir: Directory, q: nat, name: Name, expected: Identity) returns (err: Err)
    requires dir.Valid() && dir.refusesReplace && name.Public? && q in dir.tree.priv
    modifies dir
    ensures dir.Valid() && dir.created == old(dir.created) && old(dir.bound) <= dir.bound
    ensures old(dir.seen) <= dir.seen
    ensures err <= PLAIN
    ensures err == {} ==>
      dir.Undisturbed() && dir.tree.priv[q].regular && dir.tree.priv[q].id == expected
    ensures dir.Calm() && Shows(old(dir.tree), Private(q), expected) ==> err == {}
    ensures err != {} ==> DestinationChanged in err || UnsafeDestination in err
    ensures CleanupIncomplete in err ==> dir.Undisturbed()
    ensures err != {} && CleanupIncomplete !in err ==>
      && dir.log == old(dir.log) + [Renamed(Private(q), name, old(dir.tree.priv)[q], None)]
      && dir.tree.priv == old(dir.tree.priv) - {q}
      && (!dir.hostile ==> dir.tree == old(dir.tree).Drop(Private(q)).Put(name, old(dir.tree.priv)[q]))
  {
    err := ValidateNamedRegular(dir, Private(q), expected);
    if err != {} {
      var restoreErr := dir.RenameNoReplace(Private(q), name);
      if restoreErr != {} {
        err := err + {CleanupIncomplete} + restoreErr;
      }
    }
  }

  /** The directory is before with only the entry called name moved to q. */
  ghost predicate Captured(dir: Directory, before: Tree, name: Name, q: nat, expected: Identity)
    reads dir
  {
    && q !in before.priv && q in dir.tree.priv
    && dir.tree.priv == before.priv[q := dir.tree.priv[q]]
    && dir.tree.priv[q].regular && dir.tree.priv[q].id == expected
    && (!dir.hostile ==>
      before.Get(name) == Some(dir.tree.priv[q]) && dir.tree == before.Drop(name).Put(Private(q), dir.tree.priv[q]))
  }

  /** One attempt to capture under the private name q. */
  method CaptureAs(dir: Directory, name: Name, q: nat, expected: Identity) returns (retry: bool, err: Err)
    requires dir.Valid() && dir.refusesReplace && name.Public?
    modifies dir
    ensures dir.Valid() && old(dir.log) <= dir.log && old(dir.bound) <= dir.bound && dir.created == old(dir.created)
    ensures old(dir.seen) <= dir.seen
    ensures ShufflesOnly(dir.log, |old(dir.log)|, name)
    ensures err <= PLAIN
    ensures retry ==> dir.Undisturbed()
    ensures dir.Calm() && Shows(old(dir.tree), name, expected) && q !in old(dir.tree.priv) ==> !retry && err == {}
    ensures err != {} ==> DestinationChanged in err || UnsafeDestination in err || err == {AtomicOverwriteUnsupported}
    ensures !retry && err == {} ==> Captured(dir, old(dir.tree), name, q, expected)
    ensures !retry && err != {} && CleanupIncomplete !in err ==>
      dir.tree.priv == old(dir.tree.priv) && (!dir.hostile ==> dir.tree == old(dir.tree))
  {
    retry := false;
    err := dir.RenameNoReplace(name, Private(q));
    if err != {} {
      if Exist in err {
        return true, {};
      }
      if AtomicOverwriteUnsupported in err {
        return;
      }
      if NotExist in err {
        return false, {DestinationChanged};
      }
      return false, {DestinationChanged} + err;
    }
    assert dir.tree.priv == old(dir.tree.priv)[q := dir.tree.priv[q]];
    err := ConfirmCaptured(dir, q, name, expected);
    if err != {} && CleanupIncomplete !in err {
      assert dir.tree.priv == old(dir.tree.priv);
      if !dir.hostile {
        ThereAndBack(old(dir.tree), name, q);
      }
    }
  }

  /** Moves name to a fresh private name, if it still is the file expected. */
  method CaptureNamedRegular(dir: Directory, name: Name, expected: Identity) returns (q: nat, err: Err)
    requires dir.Valid() && dir.refusesReplace && name.Public?
    modifies dir
    ensures dir.Valid() && old(dir.log) <= dir.log && old(dir.bound) <= dir.bound && dir.created == old(dir.created)
    ensures old(dir.seen) <= dir.seen
    ensures ShufflesOnly(dir.log, |old(dir.log)|, name)
    ensures err <= PLAIN
    ensures err == {} ==>
      Captured(dir, old(dir.tree), name, q, expected) && !HeldPrivately(old(dir.tree), expected)
    ensures dir.Calm() && Shows(old(dir.tree), name, expected) ==> err == {}
    ensures err != {} && CleanupIncomplete !in err ==>
      dir.tree.priv == old(dir.tree.priv) && (!dir.hostile ==> dir.tree == old(dir.tree))
  {
    for attempt := 0 to 100
      invariant dir.Undisturbed()
      invariant dir.Calm() && Shows(old(dir.tree), name, expected) ==> attempt == 0
    {
      q, err := RandomPrivateName(dir);
      if err != {} {
        return;
      }
      var retry;
      retry, err := CaptureAs(dir, name, q, expected);
      if !retry {
        assert err == {} ==>
          forall q' | q' in old(dir.tree.priv) :: q' != q && dir.tree.priv[q'] == old(dir.tree.priv)[q'];
        return;
      }
    }
    return 0, {CleanupIncomplete, IO};
  }

  method RestorePrivateRegular(dir: Directory, q: nat, name: Name, expected: Identity) returns (err: Err)
    requires dir.Valid() && dir.refusesReplace && name.Public?
    modifies dir
    ensures dir.Valid() && old(dir.log) <= dir.log && old(dir.bound) <= dir.bound && dir.created == old(dir.created)
    ensures old(dir.seen) <= dir.seen
    ensures ShufflesOnly(dir.log, |old(dir.log)|, name)
    ensures err <= PLAIN
    ensures err != {} ==> CleanupIncomplete in err
    ensures dir.Calm() && Shows(old(dir.tree), Private(q), expected) && old(dir.tree).Get(name).None? ==> err == {}
    ensures err == {} ==> Shows(dir.tree, name, expected)
    ensures err == {} ==>
      && q in old(dir.tree.priv) && old(dir.tree.priv)[q].id == expected
      && dir.tree.priv == old(dir.tree.priv) - {q}
      && (!dir.hostile ==> dir.tree == old(dir.tree).Drop(Private(q)).Put(name, old(dir.tree.priv)[q]))
  {
    err := ValidateNamedRegular(dir, Private(q), expected);
    if err != {} {
      return {CleanupIncomplete} + err;
    }
    err := dir.RenameNoReplace(Private(q), name);
    if err != {} {
      return {CleanupIncomplete} + err;
    }
    err := ValidateNamedRegular(dir, name, expected);
    if err != {} {
      return {CleanupIncomplete} + err;
    }
  }

  method DeletePrivateRegular(dir: Directory, q: nat, expected: Identity) returns (err: Err)
    requires dir.Valid()
    modifies dir
    ensures dir.Valid() && dir.created == old(dir.created) && old(dir.bound) <= dir.bound
    ensures old(dir.seen) <= dir.seen
    ensures err <= PLAIN
    ensures err != {} ==> CleanupIncomplete in err && dir.Undisturbed()
    ensures dir.Calm() && Shows(old(dir.tree), Private(q), expected) ==> err == {}
    ensures err == {} ==>
      && q in old(dir.tree.priv) && old(dir.tree.priv)[q].id == expected && old(dir.tree.priv)[q].regular
      && dir.log == old(dir.log) + [Removed(Private(q), old(dir.tree.priv)[q])]
      && dir.tree.priv == old(dir.tree.priv) - {q}
      && (!dir.hostile ==> dir.tree == old(dir.tree).Drop(Private(q)))
  {
    err := ValidateNamedRegular(dir, Private(q), expected);
    if err != {} {
      return {CleanupIncomplete} + err;
    }
    err := dir.Remove(Private(q));
    if err != {} {
      return {CleanupIncomplete} + err;
    }
  }

  /** Removes the file expected from a public name, or reports why not. */
  method QuarantineRemove(dir: Directory, name: Name, expected: Identity) returns (err: Err)
    requires dir.Valid() && dir.refusesReplace && name.Public?
    modifies dir
    ensures dir.Valid() && old(dir.log) <= dir.log && old(dir.bound) <= dir.bound && dir.created == old(dir.created)
    ensures old(dir.seen) <= dir.seen
    ensures err <= PLAIN
    ensures err != {} ==> ShufflesOnly(dir.log, |old(dir.log)|, name)
    ensures dir.Calm() && Shows(old(dir.tree), name, expected) ==> err == {}
    ensures err == {} ==>
      && !HeldPrivately(old(dir.tree), expected)
      && |dir.log| > |old(dir.log)|
      && ShufflesOnly(dir.log[..|dir.log| - 1], |old(dir.log)|, name)
      && var last := dir.log[|dir.log| - 1];
      && last.Removed? && last.name.Private? && last.entry.id == expected && last.entry.regular
      && dir.tree.priv == old(dir.tree.priv)
      && (!dir.hostile ==> dir.tree == old(dir.tree).Drop(name))
    ensures err != {} && CleanupIncomplete !in err ==>
      dir.tree.priv == old(dir.tree.priv) && (!dir.hostile ==> dir.tree == old(dir.tree))
  {
    var q;
    q, err := CaptureNamedRegular(dir, name, expected);
    if err != {} {
      return;
    }
    ghost var mid := dir.log;
    err := DeletePrivateRegular(dir, q, expected);
    if err == {} {
      assert dir.log[..|dir.log| - 1] == mid;
      assert dir.tree.priv == old(dir.tree.priv);
    }
  }
}
