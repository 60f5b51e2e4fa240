/** Opening a destination: probing the platform's atomic renames on private
    names, creating the part file, and undoing all of it on failure. */
module DownloadOpening {
  import opened Wrappers
  import opened AnchoredDirectory
  import opened Quarantine
  import opened DownloadDestination

  datatype Handle = Nil | Live(id: Identity) | Dead(id: Identity)

  datatype Probe = Probe(name: nat, handle: Handle)

  /** While opening, only private names and the part name are used, and only
      files made here are unlinked. */
  ghost predicate OpenPermitted(op: Op, part: Option<Name>, made: set<Identity>) {
    match op
    case Created(n, e) => e.id in made && (n.Private? || Some(n) == part)
    case Renamed(from, to, _, over) =>
      && (from.Private? || Some(from) == part) && (to.Private? || Some(to) == part)
      && (over.Some? ==> over.value.id in made)
    case Exchanged(a, b, _, _) => a.Private? && b.Private?
    case Removed(n, e) => n.Private? && e.id in made
  }

  twostate predicate OnlyOpening(dir: Directory, new part: Option<Name>)
    reads dir
  {
    && dir.Valid() && old(dir.log) <= dir.log
    && old(dir.bound) <= dir.bound && old(dir.created) <= dir.created
    && (forall id | id in dir.created && id !in old(dir.created) :: old(dir.bound) <= id)
    && forall i | |old(dir.log)| <= i < |dir.log| ::
         OpenPermitted(dir.log[i], part, dir.created - old(dir.created))
  }

  function Names(entries: seq<Probe>): set<nat> {
    set i | 0 <= i < |entries| :: entries[i].name
  }

  method SnapshotHandle(dir: Directory, h: Handle) returns (entry: Entry, err: Err)
    requires dir.Valid()
    modifies dir
    ensures dir.Undisturbed()
    ensures err <= {IO}
    ensures err == {} ==> h.Live? && entry.id == h.id
    ensures dir.faultless && h.Live? ==> err == {}
  {
    if h.Live? {
      entry, err := dir.Fstat(h.id);
    } else {
      entry, err := Entry(0, false, 0), {IO};
    }
  }

  method CreateProbe(dir: Directory) returns (made: Option<Probe>, err: Err)
    requires dir.Valid()
    modifies dir
    ensures OnlyOpening(dir, None)
    ensures !dir.hostile ==> dir.tree.pub == old(dir.tree.pub)
    ensures err <= PLAIN
    ensures made.None? ==> err != {} && dir.Undisturbed()
    ensures made.Some? ==>
      && made.value.name !in old(dir.tree.priv) && made.value.name in dir.tree.priv
      && dir.tree.priv == old(dir.tree.priv)[made.value.name := dir.tree.priv[made.value.name]]
      && dir.tree.priv[made.value.name].id in dir.created - old(dir.created)
      && (made.value.handle.Live? ==> made.value.handle.id in dir.created - old(dir.created))
    ensures err == {} ==> made.Some? && made.value.handle == Live(dir.tree.priv[made.value.name].id)
    ensures err != {} && made.Some? ==> CleanupIncomplete in err || !made.value.handle.Live?
    ensures dir.faultless ==> err == {} && dir.tree.priv[made.value.name].regular
  {
    for attempt := 0 to 100
      invariant dir.Undisturbed()
      invariant dir.faultless ==> attempt == 0
    {
      var token;
      token, err := RandomPrivateName(dir);
      if err != {} {
        return None, err;
      }
      var id;
      id, err := dir.CreateExclusive(Private(token));
      if Exist in err {
        continue;
      }
      if err != {} {
        return None, err;
      }
      ghost var before := dir.tree;
      var _, inspectErr := dir.Fstat(id);
      var probe, probeErr := dir.OpenEntry(Private(token));
      var closeErr: Err := {};
      var closeFails: bool := *;
      if closeFails && !dir.faultless {
        closeErr := {CleanupIncomplete, IO};
      }
      err := inspectErr + probeErr + closeErr;
      if err == {} {
        return Some(Probe(token, Live(probe))), {};
      } else if probeErr != {} {
        return Some(Probe(token, Nil)), err;
      } else if closeErr == {} {
        return Some(Probe(token, Dead(probe))), err;
      } else {
        return Some(Probe(token, Live(probe))), err;
      }
    }
    return None, {AtomicOverwriteUnsupported, IO};
  }

  /** Every probe's name holds the file behind its handle. */
  ghost predicate AllShow(t: Tree, entries: seq<Probe>) {
    forall i | 0 <= i < |entries| :: entries[i].handle.Live? && Shows(t, Private(entries[i].name), entries[i].handle.id)
  }

  /** Removes one probe, if its name is provably still its own file. */
  method CleanupProbe(dir: Directory, probe: Probe, ghost made: set<Identity>) returns (err: Err)
    requires dir.Valid() && (probe.handle.Live? ==> probe.handle.id in made)
    modifies dir
    ensures dir.Valid() && old(dir.log) <= dir.log && old(dir.bound) <= dir.bound && dir.created == old(dir.created)
    ensures forall i | |old(dir.log)| <= i < |dir.log| ::
      dir.log[i].Removed? && dir.log[i].name.Private? && dir.log[i].entry.id in made
    ensures !dir.hostile ==> dir.tree.pub == old(dir.tree.pub)
    ensures err <= PLAIN
    ensures err != {} ==> CleanupIncomplete in err
    ensures err == {} ==> probe.handle.Live? && dir.tree.priv == old(dir.tree.priv) - {probe.name}
    ensures dir.Calm() && probe.handle.Live? && Shows(old(dir.tree), Private(probe.name), probe.handle.id) ==> err == {}
  {
    var probeEntry, probeErr := SnapshotHandle(dir, probe.handle);
    if probeErr != {} {
      return {CleanupIncomplete} + probeErr;
    }
    err := ValidateNamedRegular(dir, Private(probe.name), probeEntry.id);
    if err != {} {
      return {CleanupIncomplete} + err;
    }
    err := DeletePrivateRegular(dir, probe.name, probeEntry.id);
  }

  /** Removes each probe that is provably still its own file. */
  method CleanupProbes(dir: Directory, entries: seq<Probe>, ghost made: set<Identity>) returns (err: Err)
    requires dir.Valid()
    requires forall i, j | 0 <= i < j < |entries| :: entries[i].name != entries[j].name
    requires forall i | 0 <= i < |entries| && entries[i].handle.Live? :: entries[i].handle.id in made
    modifies dir
    ensures dir.Valid() && old(dir.log) <= dir.log && old(dir.bound) <= dir.bound && dir.created == old(dir.created)
    ensures forall i | |old(dir.log)| <= i < |dir.log| ::
      dir.log[i].Removed? && dir.log[i].name.Private? && dir.log[i].entry.id in made
    ensures !dir.hostile ==> dir.tree.pub == old(dir.tree.pub)
    ensures err <= PLAIN
    ensures CleanupIncomplete !in err ==> err == {} && dir.tree.priv == old(dir.tree.priv) - Names(entries)
    ensures (exists i | 0 <= i < |entries| :: !entries[i].handle.Live?) ==> CleanupIncomplete in err
    ensures dir.Calm() && AllShow(old(dir.tree), entries) ==> err == {}
  {
    err := RemoveProbes(dir, entries, made);
    var closeErr := CloseProbes(dir, entries);
    err := err + closeErr;
  }

  /** Every probe's descriptor is closed, whether or not that succeeds. */
  method CloseProbes(dir: Directory, entries: seq<Probe>) returns (err: Err)
    ensures err <= PLAIN && (err != {} ==> CleanupIncomplete in err) && (dir.faultless ==> err == {})
  {
    err := {};
    for i := 0 to |entries|
      invariant err <= PLAIN && (err != {} ==> CleanupIncomplete in err) && (dir.faultless ==> err == {})
    {
      var closeFails: bool := *;
      if closeFails && !dir.faultless {
        err := err + {CleanupIncomplete, IO};  // this probe could not be closed
      }
    }
  }

  method RemoveProbes(dir: Directory, entries: seq<Probe>, ghost made: set<Identity>) returns (err: Err)
    requires dir.Valid()
    requires forall i, j | 0 <= i < j < |entries| :: entries[i].name != entries[j].name
    requires forall i | 0 <= i < |entries| && entries[i].handle.Live? :: entries[i].handle.id in made
    modifies dir
    ensures dir.Valid() && old(dir.log) <= dir.log && old(dir.bound) <= dir.bound && dir.created == old(dir.created)
    ensures forall i | |old(dir.log)| <= i < |dir.log| ::
      dir.log[i].Removed? && dir.log[i].name.Private? && dir.log[i].entry.id in made
    ensures !dir.hostile ==> dir.tree.pub == old(dir.tree.pub)
    ensures err <= PLAIN
    ensures CleanupIncomplete !in err ==> err == {} && dir.tree.priv == old(dir.tree.priv) - Names(entries)
    ensures (exists i | 0 <= i < |entries| :: !entries[i].handle.Live?) ==> CleanupIncomplete in err
    ensures dir.Calm() && AllShow(old(dir.tree), entries) ==> err == {}
  {
    err := {};
    for i := 0 to |entries|
      invariant dir.Valid() && old(dir.log) <= dir.log && old(dir.bound) <= dir.bound && dir.created == old(dir.created)
      invariant forall j | |old(dir.log)| <= j < |dir.log| ::
        dir.log[j].Removed? && dir.log[j].name.Private? && dir.log[j].entry.id in made
      invariant !dir.hostile ==> dir.tree.pub == old(dir.tree.pub)
      invariant err <= PLAIN
      invariant CleanupIncomplete !in err ==> err == {} && dir.tree.priv == old(dir.tree.priv) - Names(entries[..i])
      invariant (exists j | 0 <= j < i :: !entries[j].handle.Live?) ==> CleanupIncomplete in err
      invariant dir.Calm() && AllShow(old(dir.tree), entries) ==> err == {} && AllShow(dir.tree, entries[i..])
    {
      assert Names(entries[..i + 1]) == Names(entries[..i]) + {entries[i].name};
      var probeErr := CleanupProbe(dir, entries[i], made);
      err := err + probeErr;
    }
    assert entries[..|entries|] == entries;
  }

  /** Cleaning up one or two probes returns the private names to p0. */
  method CleanupBackTo(dir: Directory, entries: seq<Probe>, ghost p0: map<nat, Entry>, ghost made: set<Identity>)
    returns (err: Err)
    requires dir.Valid() && 1 <= |entries| <= 2 && (|entries| == 2 ==> entries[0].name != entries[1].name)
    requires forall i | 0 <= i < |entries| && entries[i].handle.Live? :: entries[i].handle.id in made
    requires dir.tree.priv - {entries[0].name} - {entries[|entries| - 1].name} == p0
    modifies dir
    ensures dir.Valid() && old(dir.log) <= dir.log && old(dir.bound) <= dir.bound && dir.created == old(dir.created)
    ensures forall i | |old(dir.log)| <= i < |dir.log| :: OpenPermitted(dir.log[i], None, made)
    ensures !dir.hostile ==> dir.tree.pub == old(dir.tree.pub)
    ensures err <= PLAIN
    ensures CleanupIncomplete !in err ==> err == {} && dir.tree.priv == p0
    ensures (exists i | 0 <= i < |entries| :: !entries[i].handle.Live?) ==> CleanupIncomplete in err
    ensures dir.Calm() && AllShow(old(dir.tree), entries) ==> err == {}
  {
    err := CleanupProbes(dir, entries, made);
    var first, last := entries[0].name, entries[|entries| - 1].name;
    assert Names(entries) == {first, last};
    assert old(dir.tree.priv) - {first, last} == old(dir.tree.priv) - {first} - {last};
  }

  /** Succeeds only on a platform whose no-replace rename refuses an existing
      target and, when needed, whose exchange really swaps. */
  method ProbeAtomicCapabilities(dir: Directory, needExchange: bool) returns (err: Err)
    requires dir.Valid()
    modifies dir
    ensures OnlyOpening(dir, None)
    ensures !dir.hostile ==> dir.tree.pub == old(dir.tree.pub)
    ensures err <= PLAIN
    ensures CleanupIncomplete !in err ==> dir.tree.priv == old(dir.tree.priv)
    ensures err == {} ==> dir.refusesReplace && (needExchange ==> dir.swaps)
    ensures dir.Calm() ==>
      if dir.refusesReplace && (needExchange ==> dir.swaps) then err == {} else AtomicOverwriteUnsupported in err
  {
    ghost var p0 := dir.tree.priv;
    var first, firstErr := CreateProbe(dir);
    if first.None? {
      return firstErr;
    }
    var a := first.value.name;
    if firstErr != {} {
      assert dir.tree.priv - {a} - {a} == p0;
      err := CleanupBackTo(dir, [first.value], p0, dir.created - old(dir.created));
      assert CleanupIncomplete in firstErr + err by { assert first.value == [first.value][0]; }
      return firstErr + err;
    }
    err := ProbeWithFirst(dir, first.value, needExchange, p0, dir.created - old(dir.created));
  }

  method ProbeWithFirst(dir: Directory, first: Probe, needExchange: bool,
                        ghost p0: map<nat, Entry>, ghost made: set<Identity>) returns (err: Err)
    requires dir.Valid() && first.name !in p0 && first.name in dir.tree.priv
    requires dir.tree.priv == p0[first.name := dir.tree.priv[first.name]]
    requires first.handle == Live(dir.tree.priv[first.name].id) && first.handle.id in made
    requires dir.faultless ==> dir.tree.priv[first.name].regular
    modifies dir
    ensures dir.Valid() && old(dir.log) <= dir.log && old(dir.bound) <= dir.bound && old(dir.created) <= dir.created
    ensures forall id | id in dir.created && id !in old(dir.created) :: old(dir.bound) <= id
    ensures forall i | |old(dir.log)| <= i < |dir.log| ::
      OpenPermitted(dir.log[i], None, made + (dir.created - old(dir.created)))
    ensures !dir.hostile ==> dir.tree.pub == old(dir.tree.pub)
    ensures err <= PLAIN
    ensures CleanupIncomplete !in err ==> dir.tree.priv == p0
    ensures err == {} ==> dir.refusesReplace && (needExchange ==> dir.swaps)
    ensures dir.Calm() ==>
      if dir.refusesReplace && (needExchange ==> dir.swaps) then err == {} else AtomicOverwriteUnsupported in err
  {
    var a := first.name;
    var second, secondErr := CreateProbe(dir);
    ghost var all := made + (dir.created - old(dir.created));
    if second.None? {
      assert dir.tree.priv - {a} - {a} == p0;
      err := CleanupBackTo(dir, [first], p0, all);
      return secondErr + err;
    }
    var b := second.value.name;
    assert dir.tree.priv - {a} - {b} == p0;
    if secondErr != {} {
      err := CleanupBackTo(dir, [first, second.value], p0, all);
      assert CleanupIncomplete in secondErr + err by { assert second.value == [first, second.value][1]; }
      return secondErr + err;
    }
    err := TryRenames(dir, first, second.value, needExchange, p0, all);
  }

  /** Two live probes and nothing else besides p0. */
  ghost predicate TwoProbes(dir: Directory, first: Probe, second: Probe, p0: map<nat, Entry>, made: set<Identity>)
    reads dir
  {
    && dir.Valid() && first.name != second.name
    && first.name !in p0 && second.name !in p0
    && first.name in dir.tree.priv && second.name in dir.tree.priv
    && dir.tree.priv == p0[first.name := dir.tree.priv[first.name]][second.name := dir.tree.priv[second.name]]
    && first.handle.Live? && first.handle.id in made && second.handle.Live? && second.handle.id in made
    && dir.tree.priv[first.name].id == first.handle.id && dir.tree.priv[second.name].id == second.handle.id
    && (dir.faultless ==> dir.tree.priv[first.name].regular && dir.tree.priv[second.name].regular)
  }

  /** A rename onto the second probe, which an honest platform refuses. */
  method RenameOntoSecond(dir: Directory, first: Probe, second: Probe,
                          ghost p0: map<nat, Entry>, ghost made: set<Identity>) returns (err: Err)
    requires TwoProbes(dir, first, second, p0, made)
    modifies dir
    ensures dir.Valid() && old(dir.log) <= dir.log && old(dir.bound) <= dir.bound && dir.created == old(dir.created)
    ensures forall i | |old(dir.log)| <= i < |dir.log| :: OpenPermitted(dir.log[i], None, made)
    ensures !dir.hostile ==> dir.tree.pub == old(dir.tree.pub)
    ensures err <= PLAIN && CleanupIncomplete !in err
    ensures err == {} ==> dir.tree.priv - {second.name} - {second.name} == p0
    ensures err != {} ==> TwoProbes(dir, first, second, p0, made)
    ensures Exist in err ==> dir.refusesReplace
    ensures dir.Calm() ==> err == if dir.refusesReplace then {Exist} else {}
  {
    err := dir.RenameNoReplace(Private(first.name), Private(second.name));
  }

  /** The two renames of the probe, on two fresh private files. */
  method TryRenames(dir: Directory, first: Probe, second: Probe, needExchange: bool,
                    ghost p0: map<nat, Entry>, ghost made: set<Identity>) returns (err: Err)
    requires TwoProbes(dir, first, second, p0, made)
    modifies dir
    ensures dir.Valid() && old(dir.log) <= dir.log && old(dir.bound) <= dir.bound && dir.created == old(dir.created)
    ensures forall i | |old(dir.log)| <= i < |dir.log| :: OpenPermitted(dir.log[i], None, made)
    ensures !dir.hostile ==> dir.tree.pub == old(dir.tree.pub)
    ensures err <= PLAIN
    ensures CleanupIncomplete !in err ==> dir.tree.priv == p0
    ensures err == {} ==> dir.refusesReplace && (needExchange ==> dir.swaps)
    ensures dir.Calm() ==>
      if dir.refusesReplace && (needExchange ==> dir.swaps) then err == {} else AtomicOverwriteUnsupported in err
  {
    var a, b := first.name, second.name;
    var renameErr := RenameOntoSecond(dir, first, second, p0, made);
    if renameErr == {} {
      err := CleanupBackTo(dir, [Probe(b, first.handle)], p0, made);
      return {AtomicOverwriteUnsupported} + err;
    }
    if Exist in renameErr && needExchange {
      err := TryExchange(dir, first, second, p0, made);
      return;
    }
    assert dir.tree.priv - {a} - {b} == p0;
    err := CleanupBackTo(dir, [first, second], p0, made);
    if Exist !in renameErr {
      err := renameErr + err;
    }
  }

  method TryExchange(dir: Directory, first: Probe, second: Probe,
                     ghost p0: map<nat, Entry>, ghost made: set<Identity>) returns (err: Err)
    requires TwoProbes(dir, first, second, p0, made)
    modifies dir
    ensures dir.Valid() && old(dir.log) <= dir.log && old(dir.bound) <= dir.bound && dir.created == old(dir.created)
    ensures forall i | |old(dir.log)| <= i < |dir.log| :: OpenPermitted(dir.log[i], None, made)
    ensures !dir.hostile ==> dir.tree.pub == old(dir.tree.pub)
    ensures err <= PLAIN
    ensures CleanupIncomplete !in err ==> dir.tree.priv == p0
    ensures err == {} ==> dir.swaps
    ensures dir.Calm() ==> if dir.swaps then err == {} else AtomicOverwriteUnsupported in err
  {
    var a, b := first.name, second.name;
    var exchangeErr := dir.Exchange(Private(a), Private(b));
    assert dir.tree.priv - {a} - {b} == p0;
    if exchangeErr != {} {
      err := CleanupBackTo(dir, [first, second], p0, made);
      return exchangeErr + err;
    }
    err := CheckSwapped(dir, first, second, p0, made);
  }

  /** After the exchange each name must show the other probe's file. */
  method CheckSwapped(dir: Directory, first: Probe, second: Probe,
                      ghost p0: map<nat, Entry>, ghost made: set<Identity>) returns (err: Err)
    requires dir.Valid() && first.name != second.name && dir.tree.priv - {first.name} - {second.name} == p0
    requires first.handle.Live? && first.handle.id in made && second.handle.Live? && second.handle.id in made
    requires !dir.swaps ==> first.name !in dir.tree.priv
    requires dir.swaps && dir.faultless ==>
      Shows(dir.tree, Private(first.name), second.handle.id) && Shows(dir.tree, Private(second.name), first.handle.id)
    modifies dir
    ensures dir.Valid() && old(dir.log) <= dir.log && old(dir.bound) <= dir.bound && dir.created == old(dir.created)
    ensures forall i | |old(dir.log)| <= i < |dir.log| :: OpenPermitted(dir.log[i], None, made)
    ensures !dir.hostile ==> dir.tree.pub == old(dir.tree.pub)
    ensures err <= PLAIN
    ensures CleanupIncomplete !in err ==> dir.tree.priv == p0
    ensures err == {} ==> dir.swaps
    ensures dir.Calm() ==> if dir.swaps then err == {} else AtomicOverwriteUnsupported in err
  {
    var firstCurrent, firstErr := SnapshotHandle(dir, first.handle);
    var secondCurrent, secondErr := SnapshotHandle(dir, second.handle);
    if firstErr != {} || secondErr != {} {
      err := CleanupBackTo(dir, [first, second], p0, made);
      return firstErr + secondErr + {AtomicOverwriteUnsupported} + err;
    }
    var entries := [Probe(first.name, second.handle), Probe(second.name, first.handle)];
    firstErr := ValidateNamedRegular(dir, Private(first.name), secondCurrent.id);
    secondErr := ValidateNamedRegular(dir, Private(second.name), firstCurrent.id);
    err := CleanupBackTo(dir, entries, p0, made);
    if firstErr != {} || secondErr != {} {
      err := {AtomicOverwriteUnsupported} + firstErr + secondErr + err;
    }
  }

  /** Inspects the final name before anything is created. */
  method ValidateFinalTarget(dir: Directory, final: Name, overwrite: bool) returns (target: Option<Identity>, err: Err)
    requires dir.Valid()
    modifies dir
    ensures dir.Undisturbed()
    ensures DestinationCommitted !in err && CleanupIncomplete !in err
    ensures err == {} ==> target == if dir.tree.Get(final).Some? then Some(dir.tree.Get(final).value.id) else None
    ensures err == {} && target.Some? ==> overwrite && dir.tree.Get(final).value.regular
    ensures IO !in err ==>
      err == match dir.tree.Get(final)
             case None => {}
             case Some(e) =>
               if !e.regular then {UnsafeDestination} else if overwrite then {} else {DestinationExists(e.size, e.id)}
    ensures dir.faultless ==> IO !in err
    ensures forall size, id | DestinationExists(size, id) in err ::
      !overwrite && dir.tree.Get(final) == Some(Entry(id, true, size))
  {
    var entry;
    entry, err := dir.Lstat(final);
    if NotExist in err {
      return None, {};
    }
    if err != {} {
      return None, err;
    }
    if !entry.regular {
      return None, {UnsafeDestination};
    }
    if !overwrite {
      var unreadable: bool := *;
      if unreadable && !dir.faultless {
        return None, {IO};  // the directory's own identity could not be read
      }
      return None, {DestinationExists(entry.size, entry.id)};
    }
    return Some(entry.id), {};
  }

  function PartName(safeName: string, random: string): (part: string)
    ensures part != safeName
  {
    "." + safeName + "." + random + ".part"
  }

  lemma UnusedPartName(taken: set<string>, safeName: string)
    ensures exists random: string :: PartName(safeName, random) !in taken
  {
    var bound := LongerThanAll(taken);
    var random := seq(bound, _ => '0');
    assert |PartName(safeName, random)| >= bound;
  }

  lemma {:induction false} LongerThanAll(taken: set<string>) returns (bound: nat)
    ensures forall t | t in taken :: |t| < bound
  {
    bound := 0;
    if taken != {} {
      var some :| some in taken;
      var rest := LongerThanAll(taken - {some});
      bound := if rest <= |some| then |some| + 1 else rest;
      assert forall t | t in taken :: t == some || t in taken - {some};
    }
  }

  method CreatePartFile(dir: Directory, safeName: string) returns (part: string, id: Identity, err: Err)
    requires dir.Valid()
    modifies dir
    ensures part != safeName
    ensures err <= {IO, Exist}
    ensures err != {} ==> dir.Undisturbed()
    ensures dir.Calm() ==> err == {}
    ensures err == {} ==>
      && OnlyOpening(dir, Some(Public(part))) && id in dir.created - old(dir.created)
      && dir.tree.priv == old(dir.tree.priv)
      && (!dir.hostile ==> old(dir.tree).Get(Public(part)).None?
                           && dir.tree == old(dir.tree).Put(Public(part), Entry(id, true, 0)))
  {
    id := 0;
    for attempt := 0 to 100
      invariant dir.Undisturbed()
      invariant dir.Calm() ==> attempt == 0
    {
      var random: string := *;
      var fails: bool := *;
      if dir.faultless {
        UnusedPartName(dir.tree.pub.Keys, safeName);
        random :| PartName(safeName, random) !in dir.tree.pub;
      }
      part := PartName(safeName, random);
      if fails && !dir.faultless {
        return part, 0, {IO};  // no randomness available
      }
      id, err := dir.CreateExclusive(Public(part));
      if Exist !in err {
        return;
      }
    }
    part := PartName(safeName, "");
    err := {Exist};
  }

  /** Removes the part file after a failure; without a proven identity it is
      left and reported. */
  method CleanupOpenDestinationPart(dir: Directory, part: string, id: Identity, canRemove: bool, primary: Err)
    returns (err: Err)
    requires dir.Valid() && dir.refusesReplace && primary != {} && primary <= PLAIN
    modifies dir
    ensures dir.Valid() && old(dir.log) <= dir.log && old(dir.bound) <= dir.bound && dir.created == old(dir.created)
    ensures forall i | |old(dir.log)| <= i < |dir.log| :: OpenPermitted(dir.log[i], Some(Public(part)), {id})
    ensures err != {} && primary <= err <= PLAIN
    ensures dir.Calm() && canRemove && Shows(old(dir.tree), Public(part), id) ==> err == primary
    ensures CleanupIncomplete !in err ==>
      dir.tree.priv == old(dir.tree.priv) && (!dir.hostile ==> dir.tree == old(dir.tree).Drop(Public(part)))
  {
    err := primary;
    var closeFails: bool := *;
    if closeFails && !dir.faultless {
      err := err + {CleanupIncomplete, IO};  // the part could not be closed
    }
    if canRemove {
      var removeErr := QuarantineRemove(dir, Public(part), id);
      if removeErr != {} {
        err := err + {CleanupIncomplete} + removeErr;
      }
    } else {
      err := err + {CleanupIncomplete};
    }
    var closeErr := CloseDir(dir);
    err := err + closeErr;
  }

  method CloseDir(dir: Directory) returns (err: Err)
    ensures err in {{}, {CleanupIncomplete, IO}} && (dir.faultless ==> err == {})
  {
    var fails: bool := *;
    if fails && !dir.faultless {
      return {CleanupIncomplete, IO};
    }
    return {};
  }

  /** Checks the new part file; a failure removes it again. */
  method SecurePart(dir: Directory, part: string, id: Identity) returns (err: Err)
    requires dir.Valid() && dir.refusesReplace
    modifies dir
    ensures dir.Valid() && old(dir.log) <= dir.log && old(dir.bound) <= dir.bound && dir.created == old(dir.created)
    ensures forall i | |old(dir.log)| <= i < |dir.log| :: OpenPermitted(dir.log[i], Some(Public(part)), {id})
    ensures err <= PLAIN
    ensures err == {} ==> dir.Undisturbed() && Shows(dir.tree, Public(part), id)
    ensures dir.Calm() && Shows(old(dir.tree), Public(part), id) ==> err == {}
    ensures err != {} && CleanupIncomplete !in err ==>
      dir.tree.priv == old(dir.tree.priv) && (!dir.hostile ==> dir.tree == old(dir.tree).Drop(Public(part)))
  {
    var _, snapshotErr := dir.Fstat(id);
    if snapshotErr != {} {
      err := CleanupOpenDestinationPart(dir, part, id, false, snapshotErr);
      return;
    }
    err := ValidateNamedRegular(dir, Public(part), id);
    if err == {} {
      var fails: bool := *;
      if fails && !dir.faultless {
        err := {IO};  // the part could not be made private
      } else {
        err := ValidateNamedRegular(dir, Public(part), id);
      }
    }
    if err != {} {
      err := CleanupOpenDestinationPart(dir, part, id, true, err);
    }
  }

  /** Creates and secures the part file, or leaves no trace of it. */
  method OpenPart(dir: Directory, safeName: string) returns (part: string, id: Identity, err: Err)
    requires dir.Valid() && dir.refusesReplace
    modifies dir
    ensures part != safeName && err <= PLAIN
    ensures dir.Calm() ==> err == {}
    ensures OnlyOpening(dir, Some(Public(part)))
    ensures err == {} ==>
      && id in dir.created - old(dir.created) && Shows(dir.tree, Public(part), id)
      && dir.tree.priv == old(dir.tree.priv)
      && (!dir.hostile ==> old(dir.tree).Get(Public(part)).None?
                           && dir.tree == old(dir.tree).Put(Public(part), Entry(id, true, 0)))
    ensures err != {} && CleanupIncomplete !in err ==>
      dir.tree.priv == old(dir.tree.priv) && (!dir.hostile ==> dir.tree == old(dir.tree))
  {
    part, id, err := CreatePartFile(dir, safeName);
    if err != {} {
      var closeErr := CloseDir(dir);
      return part, id, err + closeErr;
    }
    assert !dir.hostile ==> dir.tree.Drop(Public(part)) == old(dir.tree) by {
      assert old(dir.tree).Get(Public(part)).None? ==>
        old(dir.tree).pub[part := Entry(id, true, 0)] - {part} == old(dir.tree).pub;
    }
    err := SecurePart(dir, part, id);
  }

  /** Accepts the final name and probes the platform, before anything public is
      created. */
  method Prepare(dir: Directory, safeName: string, overwrite: bool) returns (target: Option<Identity>, err: Err)
    requires dir.Valid()
    modifies dir
    ensures OnlyOpening(dir, None)
    ensures DestinationCommitted !in err
    ensures CleanupIncomplete !in err ==> dir.tree.priv == old(dir.tree.priv) && (!dir.hostile ==> dir.tree == old(dir.tree))
    ensures err == {} ==>
      && dir.refusesReplace && (target.Some? ==> overwrite && dir.swaps)
      && (!dir.hostile ==> match old(dir.tree).Get(Public(safeName))
                           case None => target.None?
                           case Some(e) => e.regular && target == Some(e.id))
    ensures dir.Calm() && dir.refusesReplace && (overwrite ==> dir.swaps) ==>
      (err == {} <==> match old(dir.tree).Get(Public(safeName))
                      case None => true
                      case Some(e) => overwrite && e.regular)
    ensures dir.Calm() && !overwrite && old(dir.tree).Get(Public(safeName)).Some? ==>
      var e := old(dir.tree).Get(Public(safeName)).value;
      err == {if e.regular then DestinationExists(e.size, e.id) else UnsafeDestination}
    ensures !dir.hostile ==>
      forall size, id | DestinationExists(size, id) in err ::
        !overwrite && old(dir.tree).Get(Public(safeName)) == Some(Entry(id, true, size))
  {
    target, err := ValidateFinalTarget(dir, Public(safeName), overwrite);
    if err == {} {
      err := ProbeAtomicCapabilities(dir, overwrite && target.Some?);
    }
    if err != {} {
      var closeErr := CloseDir(dir);
      err := err + closeErr;
    }
  }

  /** Opens a destination in an existing directory. */
  method OpenDestination(dir: Directory, dirPath: string, safeName: string, overwrite: bool)
    returns (d: Destination?, err: Err, ghost part: Option<Name>)
    requires dir.Valid()
    modifies dir
    ensures d == null <==> err != {}
    ensures DestinationCommitted !in err
    ensures OnlyOpening(dir, part) && part != Some(Public(safeName))
    ensures d != null ==>
      && fresh(d) && part == Some(d.Part()) && d.dir == dir && d.Valid() && d.state == Open && d.Opened()
      && d.overwrite == overwrite && d.finalName == safeName && d.Untampered()
      // so no file that existed before is removable, except the accepted target
      && d.partId in dir.created - old(dir.created) && Shows(dir.tree, d.Part(), d.partId)
      && dir.tree.priv == old(dir.tree.priv)
      && (!dir.hostile ==>
        && old(dir.tree).Get(d.Part()).None?
        && dir.tree == old(dir.tree).Put(d.Part(), Entry(d.partId, true, 0))
        && d.Publishable(old(dir.tree)))
    ensures d == null && CleanupIncomplete !in err ==>
      dir.tree.priv == old(dir.tree.priv) && (!dir.hostile ==> dir.tree == old(dir.tree))
    // nothing failing, a destination opens exactly when its target is acceptable to a capable platform
    ensures dir.Calm() && dir.refusesReplace && (overwrite ==> dir.swaps) ==>
      (d != null <==> match old(dir.tree).Get(Public(safeName))
                      case None => true
                      case Some(e) => overwrite && e.regular)
    // and without overwrite a regular file in its place is reported, and nothing else
    ensures dir.Calm() && !overwrite && old(dir.tree).Get(Public(safeName)).Some? ==>
      var e := old(dir.tree).Get(Public(safeName)).value;
      err == {if e.regular then DestinationExists(e.size, e.id) else UnsafeDestination}
    ensures d == null && !dir.hostile ==>
      forall size, id | DestinationExists(size, id) in err ::
        !overwrite && old(dir.tree).Get(Public(safeName)) == Some(Entry(id, true, size))
  {
    d, part := null, None;
    var target;
    target, err := Prepare(dir, safeName, overwrite);
    if err != {} {
      return;
    }
    var partName, id;
    partName, id, err := OpenPart(dir, safeName);
    part := Some(Public(partName));
    if err != {} {
      return;
    }
    d := new Destination(dir, overwrite, safeName, partName, id, target, dirPath + "/" + safeName,
                         dirPath + "/" + partName);
  }
}
