/** The lifecycle of one download destination after it has been opened:
    publishing the part file under the final name, or removing it. */
module DownloadDestination {
  import opened Wrappers
  import opened AnchoredDirectory
  import opened Quarantine

  datatype State = Open | Committed | Aborted | Incomplete

  /** The only things this process may do between open and the terminal state. */
  ghost predicate Permitted(op: Op, part: Name, final: Name, overwrite: bool, removable: set<Identity>) {
    match op
    case Created(_, _) => false
    case Renamed(from, to, _, over) =>
      over.None? && ((from == part && to.Private?) || (from.Private? && (to == part || to == final)))
    case Exchanged(a, b, _, _) => overwrite && a.Private? && b == final
    case Removed(n, e) => n.Private? && e.regular && e.id in removable
  }

  /** The entry an exchange took from the final name was unlinked as the
      accepted target, or a later exchange put it back there. */
  ghost predicate Settled(log: seq<Op>, i: nat, accepted: Option<Identity>)
    requires i < |log| && log[i].Exchanged?
  {
    exists j :: i < j < |log| && (
      || (log[j] == Removed(log[i].a, log[i].atB) && accepted == Some(log[i].atB.id))
      || (log[j].Exchanged? && log[j].a == log[i].a && log[j].b == log[i].b && log[j].atA == log[i].atB))
  }

  /** Every exchange since start either settles or is itself a putting back,
      which took nothing but the part file from the final name. */
  ghost predicate AllSettled(log: seq<Op>, start: nat, accepted: Option<Identity>, part: Identity) {
    forall i | start <= i < |log| && log[i].Exchanged? ::
      Settled(log, i, accepted) || exists j :: start <= j < i && PutsBack(log, j, i, part)
  }

  ghost predicate PutsBack(log: seq<Op>, j: nat, i: nat, part: Identity)
    requires j < |log| && i < |log|
  {
    log[j].Exchanged? && log[i].Exchanged?
    && log[j].a == log[i].a && log[j].b == log[i].b && log[i].atA == log[j].atB && log[i].atB.id == part
  }

  /** The part file was left under a private name. */
  ghost predicate LeftCaptured(before: Tree, now: Tree, id: Identity) {
    exists q :: q !in before.priv && q in now.priv && now.priv[q].id == id
                && now.priv == before.priv[q := now.priv[q]]
  }

  /** The operation puts the file id under the final name. */
  predicate Publishes(op: Op, final: Name, id: Identity) {
    || (op.Renamed? && op.to == final && op.entry.id == id)
    || (op.Exchanged? && op.b == final && op.atA.id == id)
  }

  /** After some operation that published the file id, an inspection of the
      final name showed that very file. */
  ghost predicate Confirmed(log: seq<Op>, start: nat, seen: seq<Sight>, from: nat, final: Name, id: Identity) {
    exists i, j ::
      && start <= j < |log| && Publishes(log[j], final, id)
      && from <= i < |seen| && Sighted(seen[i], final, id) && seen[i].after > j
  }

  predicate Sighted(s: Sight, final: Name, id: Identity) {
    s.name == final && s.entry.id == id && s.entry.regular
  }

  class Destination {
    const dir: Directory
    const overwrite: bool
    const finalName: string
    const partName: string
    const partId: Identity
    const target: Option<Identity>
    const finalPath: string
    const partPath: string
    // Exported copies, which a caller may have tampered with.
    var FinalPath: string
    var PartPath: string
    var File: Option<Identity>

    var file: Option<Identity>
    var dirOpen: bool
    var state: State
    var published: bool
    var publishedId: Option<Identity>
    var terminalErr: Err

    constructor (dir: Directory, overwrite: bool, finalName: string, partName: string, partId: Identity,
                 target: Option<Identity>, finalPath: string, partPath: string)
      ensures this.dir == dir && this.overwrite == overwrite
      ensures this.finalName == finalName && this.partName == partName
      ensures this.partId == partId && this.target == target
      ensures state == Open && !published && terminalErr == {} && dirOpen
      ensures file == File == Some(partId) && Untampered()
    {
      this.dir, this.overwrite, this.finalName, this.partName := dir, overwrite, finalName, partName;
      this.partId, this.target, this.finalPath, this.partPath := partId, target, finalPath, partPath;
      FinalPath, PartPath, File, file := finalPath, partPath, Some(partId), Some(partId);
      dirOpen, state, published, publishedId, terminalErr := true, Open, false, None, {};
    }

    function Final(): Name { Public(finalName) }

    function Part(): Name { Public(partName) }

    /** Which files may be unlinked: the part file and the accepted target. */
    function Removable(): set<Identity> {
      {partId} + (if overwrite && target.Some? then {target.value} else {})
    }

    /** What a successful open has established about names and platform. */
    ghost predicate Opened()
      reads dir
    {
      && dir.Valid() && dir.refusesReplace && finalName != partName
      && (overwrite && target.Some? ==> dir.swaps)
    }

    ghost predicate Valid()
      reads this
    {
      match state
      case Open => !published && terminalErr == {} && dirOpen
      case Committed => published && !dirOpen
      case Aborted => !published && !dirOpen
      case Incomplete =>
        !dirOpen && CleanupIncomplete in terminalErr && (published <==> DestinationCommitted in terminalErr)
    }

    /** What happened to the directory since old, in terms of the log alone. */
    twostate predicate OnlyPermitted()
      reads this, dir
    {
      && dir.Valid() && old(dir.log) <= dir.log && old(dir.bound) <= dir.bound && dir.created == old(dir.created)
      && old(dir.seen) <= dir.seen
      && forall i | |old(dir.log)| <= i < |dir.log| ::
           Permitted(dir.log[i], Part(), Final(), overwrite, Removable())
    }

    method ValidatePublishedEntry(probe: Identity) returns (err: Err)
      requires dir.Valid()
      modifies dir
      ensures dir.Undisturbed()
      ensures err <= {DestinationChanged, UnsafeDestination, IO}
      ensures err == {} ==>
        |dir.seen| > |old(dir.seen)| && Sighted(dir.seen[|old(dir.seen)|], Final(), probe)
        && dir.seen[|old(dir.seen)|].after == |dir.log|
      ensures dir.Calm() && Shows(old(dir.tree), Final(), probe) ==> err == {}
    {
      var entry, probeEntry;
      entry, err := dir.Lstat(Final());
      if err != {} {
        return {DestinationChanged};
      }
      if !entry.regular {
        return {UnsafeDestination};
      }
      probeEntry, err := dir.Fstat(probe);
      if err != {} {
        return {DestinationChanged} + err;
      }
      if entry.id != probeEntry.id || entry.size != probeEntry.size {
        return {DestinationChanged};
      }
    }

    method CapturePublishedIdentity() returns (err: Err)
      requires dir.Valid()
      modifies dir, this`publishedId
      ensures dir.Undisturbed()
      ensures err <= {UnsafeDestination, NotExist, IO}
      ensures err == {} ==>
        dir.tree.Get(Final()).Some? && publishedId == Some(dir.tree.Get(Final()).value.id)
      ensures dir.Calm() && old(dir.tree).Get(Final()).Some? && old(dir.tree).Get(Final()).value.regular ==> err == {}
    {
      var entry;
      entry, err := dir.Lstat(Final());
      if err != {} {
        return;
      }
      if !entry.regular {
        return {UnsafeDestination};
      }
      publishedId := Some(entry.id);
    }

    /** A collision is reported with the size and identity of a regular file
        that was under the final name when it was inspected. */
    method InspectDestinationCollision() returns (err: Err)
      requires dir.Valid()
      modifies dir
      ensures dir.Undisturbed()
      ensures DestinationCommitted !in err && DestinationAborted !in err && CleanupIncomplete !in err && err != {}
      ensures HonestCollision(dir.tree, err)
      ensures IO in err ==> DestinationChanged in err && !dir.faultless
      ensures IO !in err ==>
        err == match dir.tree.Get(Final())
               case None => {DestinationChanged}
               case Some(e) => {if e.regular then DestinationExists(e.size, e.id) else UnsafeDestination}
    {
      var entry;
      entry, err := dir.Lstat(Final());
      if err != {} {
        if NotExist in err {
          return {DestinationChanged};
        }
        return {DestinationChanged} + err;
      }
      if !entry.regular {
        return {UnsafeDestination};
      }
      var unreadable: bool := *;
      if unreadable && !dir.faultless {
        return {DestinationChanged, IO};  // the directory's own identity could not be read
      }
      return {DestinationExists(entry.size, entry.id)};
    }

    method TargetRaceError() returns (err: Err)
      requires dir.Valid()
      modifies dir
      ensures dir.Undisturbed()
      ensures err != {} && err <= {DestinationChanged, UnsafeDestination, IO}
      ensures IO in err ==> DestinationChanged in err && !dir.faultless
      ensures IO !in err ==>
        err == match dir.tree.Get(Final())
               case None => {DestinationChanged}
               case Some(e) => {if e.regular then DestinationChanged else UnsafeDestination}
    {
      var current;
      current, err := dir.Lstat(Final());
      if err != {} {
        if NotExist in err {
          return {DestinationChanged};
        }
        return {DestinationChanged} + err;
      }
      if !current.regular {
        return {UnsafeDestination};
      }
      return {DestinationChanged};
    }

    method ValidateTargetUnchanged() returns (err: Err)
      requires dir.Valid()
      modifies dir
      ensures dir.Undisturbed()
      ensures err <= {DestinationChanged, UnsafeDestination, IO}
      ensures IO !in err ==>
        err == match dir.tree.Get(Final())
               case None => if target.Some? then {DestinationChanged} else {}
               case Some(e) =>
                 if !e.regular then {UnsafeDestination} else if target != Some(e.id) then {DestinationChanged} else {}
      ensures dir.faultless ==> IO !in err
    {
      var current;
      current, err := dir.Lstat(Final());
      if NotExist in err {
        return if target.Some? then {DestinationChanged} else {};
      }
      if err != {} {
        return;
      }
      if !current.regular {
        return {UnsafeDestination};
      }
      if target != Some(current.id) {
        return {DestinationChanged};
      }
    }

    /** The directory is before with only the part file moved to name q. */
    ghost predicate Holding(before: Tree, q: nat)
      reads dir
    {
      Occupied(before, q) && dir.tree.priv[q].regular && dir.tree.priv[q].id == partId
    }

    /** As Holding, but for a file somebody else may have swapped in. */
    ghost predicate Occupied(before: Tree, q: nat)
      reads dir
    {
      && q !in before.priv && q in dir.tree.priv
      && dir.tree.priv == before.priv[q := dir.tree.priv[q]]
      && (!dir.hostile ==>
        && before.Get(Part()) == Some(dir.tree.priv[q])
        && dir.tree == before.Drop(Part()).Put(Private(q), dir.tree.priv[q]))
    }

    /** No private name has changed, nor anything else unless someone
        else is at work. */
    ghost predicate BackTo(before: Tree)
      reads dir
    {
      dir.tree.priv == before.priv && (!dir.hostile ==> dir.tree == before)
    }

    /** before with the part file published under the final name. */
    ghost predicate PublishedFrom(before: Tree)
      reads dir
    {
      && dir.tree.priv == before.priv
      && (!dir.hostile ==>
        && before.Get(Part()).Some? && before.Get(Part()).value.id == partId
        && dir.tree == before.Drop(Part()).Put(Final(), before.Get(Part()).value))
    }

    /** The final name holds exactly what was accepted at open. */
    ghost predicate AcceptedTarget(t: Tree) {
      match target
      case None => t.Get(Final()).None?
      case Some(id) => t.Get(Final()).Some? && t.Get(Final()).value.id == id
    }

    /** And it is still a file that may be replaced. */
    ghost predicate StillAccepted(t: Tree) {
      AcceptedTarget(t) && (target.Some? ==> t.Get(Final()).value.regular)
    }

    /** Captures the part file under a private name and opens it there. */
    method TakePart() returns (q: nat, probe: Identity, err: Err)
      requires Opened()
      modifies dir
      ensures OnlyPermitted()
      ensures forall i | |old(dir.log)| <= i < |dir.log| :: dir.log[i].Renamed?
      ensures err <= PLAIN
      ensures err != {} && CleanupIncomplete !in err ==>
        BackTo(old(dir.tree)) || LeftCaptured(old(dir.tree), dir.tree, partId)
      ensures err == {} ==> probe == partId && Holding(old(dir.tree), q)
      ensures dir.Calm() && Shows(old(dir.tree), Part(), partId) ==> err == {}
    {
      q, probe := 0, 0;
      err := ValidateNamedRegular(dir, Part(), partId);
      if err != {} {
        return;
      }
      q, err := CaptureNamedRegular(dir, Part(), partId);
      if err != {} {
        return;
      }
      probe, err := dir.OpenEntry(Private(q));
      assert err != {} ==> LeftCaptured(old(dir.tree), dir.tree, partId);
    }

    /** A collision is reported only for what stood under the final name. */
    ghost predicate HonestCollision(before: Tree, err: Err) {
      forall size, id | DestinationExists(size, id) in err :: before.Get(Final()) == Some(Entry(id, true, size))
    }

    /** Returns the held part file to its own name. */
    method PutPartBack(q: nat, ghost before: Tree) returns (err: Err)
      requires Opened() && Occupied(before, q)
      modifies dir
      ensures OnlyPermitted()
      ensures forall i | |old(dir.log)| <= i < |dir.log| :: dir.log[i].Renamed?
      ensures err <= PLAIN
      ensures CleanupIncomplete !in err ==> BackTo(before) && old(dir.tree.priv[q].id == partId)
      ensures dir.Calm() && old(dir.tree.priv[q].regular && dir.tree.priv[q].id == partId) ==> err == {}
    {
      ghost var held := dir.tree;
      err := RestorePrivateRegular(dir, q, Part(), partId);
      if CleanupIncomplete !in err {
        assert dir.tree.priv == before.priv;
        if !dir.hostile {
          ThereAndBack(before, Part(), q);
        }
      }
    }

    /** Checks that the final name still shows the published file and records
        its identity. */
    method ConfirmPublished(probe: Identity, ghost start: nat, ghost from: nat) returns (err: Err)
      requires dir.Valid() && start < |dir.log| && Publishes(dir.log[|dir.log| - 1], Final(), probe) && from <= |dir.seen|
      modifies dir, this`publishedId
      ensures dir.Undisturbed()
      ensures err <= PLAIN && CleanupIncomplete !in err
      ensures err == {} ==> Confirmed(dir.log, start, dir.seen, from, Final(), probe)
      ensures dir.Calm() && Shows(old(dir.tree), Final(), probe) ==> err == {}
      ensures err == {} ==>
        dir.tree.Get(Final()).Some? && publishedId == Some(dir.tree.Get(Final()).value.id)
    {
      err := ValidatePublishedEntry(probe);
      if err != {} {
        return;
      }
      err := CapturePublishedIdentity();
    }

    /** The publishing rename itself. */
    method RenameToFinal(q: nat, ghost before: Tree) returns (err: Err)
      requires Opened() && Holding(before, q)
      modifies dir
      ensures OnlyPermitted()
      ensures forall i | |old(dir.log)| <= i < |dir.log| :: dir.log[i].Renamed?
      ensures err in {{}, {Exist}, {NotExist}, {AtomicOverwriteUnsupported}, {IO}}
      ensures err != {} ==> Holding(before, q)
      ensures err == {} ==>
        PublishedFrom(before) && (!dir.hostile ==> before.Get(Final()).None? && dir.tree.Get(Final()).value.id == partId)
      ensures err == {} ==> |dir.log| > |old(dir.log)| && Publishes(dir.log[|dir.log| - 1], Final(), partId)
      ensures dir.Calm() && before.Get(Final()).None? ==> err == {} && Shows(dir.tree, Final(), partId)
    {
      err := dir.RenameNoReplace(Private(q), Final());
      if err == {} {
        assert dir.tree.priv == before.priv;
      }
    }

    /** Why the publishing rename found the final name taken. */
    method ExplainTaken(raced: bool) returns (err: Err)
      requires dir.Valid()
      modifies dir
      ensures dir.Undisturbed()
      ensures DestinationCommitted !in err && DestinationAborted !in err && CleanupIncomplete !in err
      ensures err != {} && HonestCollision(dir.tree, err)
      ensures IO !in err ==>
        err == match dir.tree.Get(Final())
               case None => {DestinationChanged}
               case Some(e) =>
                 if !e.regular then {UnsafeDestination}
                 else if raced then {DestinationChanged} else {DestinationExists(e.size, e.id)}
    {
      if raced {
        err := TargetRaceError();
      } else {
        err := InspectDestinationCollision();
      }
    }

    /** The publishing rename failed without effect, so the part file goes
        back. */
    method ExplainNotPublished(q: nat, ghost before: Tree, cause: Err, raced: bool) returns (err: Err)
      requires Opened() && Holding(before, q) && cause in {{Exist}, {NotExist}, {AtomicOverwriteUnsupported}, {IO}}
      modifies dir
      ensures OnlyPermitted()
      ensures forall i | |old(dir.log)| <= i < |dir.log| :: dir.log[i].Renamed?
      ensures err != {} && DestinationCommitted !in err && DestinationAborted !in err
      ensures Exist !in cause ==> cause <= err
      ensures CleanupIncomplete !in err ==> BackTo(before)
      ensures dir.Calm() ==> CleanupIncomplete !in err
      ensures !dir.hostile ==> HonestCollision(before, err)
      ensures !dir.hostile && cause == {Exist} && !raced && IO !in err && before.Get(Final()).Some? ==>
        var e := before.Get(Final()).value;
        (if e.regular then DestinationExists(e.size, e.id) else UnsafeDestination) in err
    {
      err := cause;
      if Exist in err {
        err := ExplainTaken(raced);
      }
      var restoreErr := PutPartBack(q, before);
      err := err + restoreErr;
    }

    /** Renames the held part file to the final name and checks the result. */
    method PublishHeld(q: nat, probe: Identity, ghost before: Tree, raced: bool, ghost start: nat, ghost from: nat)
      returns (done: bool, err: Err)
      requires Opened() && Holding(before, q) && probe == partId && start <= |dir.log| && from <= |dir.seen|
      modifies dir, this`publishedId
      ensures OnlyPermitted()
      ensures forall i | |old(dir.log)| <= i < |dir.log| :: dir.log[i].Renamed?
      ensures DestinationCommitted !in err && DestinationAborted !in err
      ensures err == {} ==> done
      ensures done && err != {} ==> CleanupIncomplete in err
      ensures done ==> err <= PLAIN
      ensures done && err == {} ==>
        && PublishedFrom(before) && Confirmed(dir.log, start, dir.seen, from, Final(), partId)
        && (!dir.hostile ==> before.Get(Final()).None? && publishedId == Some(partId))
      ensures !done && CleanupIncomplete !in err ==> BackTo(before)
      ensures !dir.hostile ==> HonestCollision(before, err)
      ensures dir.Calm() ==> if before.Get(Final()).None? then err == {} else !done && CleanupIncomplete !in err
    {
      err := RenameToFinal(q, before);
      if err != {} {
        err := ExplainNotPublished(q, before, err, raced);
        return false, err;
      }
      err := ConfirmPublished(probe, start, from);
      if err != {} {
        return true, err + {CleanupIncomplete};
      }
      return true, {};
    }

    /** Publishes onto an absent final name; an existing entry there makes the
        rename fail and is never replaced. */
    method PublishAbsent(raced: bool) returns (done: bool, err: Err)
      requires Opened()
      modifies dir, this`publishedId
      ensures OnlyPermitted()
      ensures forall i | |old(dir.log)| <= i < |dir.log| :: dir.log[i].Renamed?
      ensures DestinationCommitted !in err && DestinationAborted !in err
      ensures err == {} ==> done
      ensures done && err != {} ==> CleanupIncomplete in err
      ensures done ==> err <= PLAIN
      ensures done && err == {} ==>
        && PublishedFrom(old(dir.tree))
        && (!dir.hostile ==> old(dir.tree).Get(Final()).None? && publishedId == Some(partId))
      ensures dir.Calm() && Shows(old(dir.tree), Part(), partId) ==>
        if old(dir.tree).Get(Final()).None? then err == {} else !done && CleanupIncomplete !in err && BackTo(old(dir.tree))
      ensures err == {} ==> Confirmed(dir.log, |old(dir.log)|, dir.seen, |old(dir.seen)|, Final(), partId)
      ensures !done && CleanupIncomplete !in err ==>
        BackTo(old(dir.tree)) || LeftCaptured(old(dir.tree), dir.tree, partId)
      ensures !dir.hostile ==> HonestCollision(old(dir.tree), err)
    {
      var q, probe;
      q, probe, err := TakePart();
      if err != {} {
        return false, err;
      }
      done, err := PublishHeld(q, probe, old(dir.tree), raced, |old(dir.log)|, |old(dir.seen)|);
    }

    /** The part file shows under the final name and displaced under q. */
    ghost predicate Swapped(before: Tree, q: nat, held: Entry, displaced: Entry)
      reads dir
    {
      && q !in before.priv && dir.tree.priv == before.priv[q := displaced]
      && (!dir.hostile ==>
        && before.Get(Part()) == Some(held) && before.Get(Final()) == Some(displaced)
        && dir.tree == before.Drop(Part()).Put(Private(q), displaced).Put(Final(), held))
    }

    method ExchangeToFinal(q: nat, ghost before: Tree) returns (ghost displaced: Entry, err: Err)
      requires Opened() && Holding(before, q) && overwrite && dir.swaps
      modifies dir
      ensures OnlyPermitted()
      ensures err in {{}, {NotExist}, {AtomicOverwriteUnsupported}, {IO}}
      ensures err != {} ==> Holding(before, q) && dir.log == old(dir.log)
      ensures err == {} ==>
        && dir.log == old(dir.log) + [Exchanged(Private(q), Final(), old(dir.tree.priv[q]), displaced)]
        && Swapped(before, q, old(dir.tree.priv[q]), displaced)
      ensures dir.Calm() && before.Get(Final()).Some? ==> err == {}
    {
      err := dir.Exchange(Private(q), Final());
      displaced := old(dir.tree.priv[q]);
      if err == {} {
        displaced := dir.log[|dir.log| - 1].atB;
        assert dir.tree.priv == before.priv[q := displaced];
      }
    }

    /** Exchanges the displaced file back under the final name. */
    method ExchangeBack(q: nat, ghost before: Tree, ghost held: Entry, ghost displaced: Entry) returns (err: Err)
      requires Opened() && overwrite && dir.swaps && Swapped(before, q, held, displaced)
      modifies dir
      ensures OnlyPermitted()
      ensures err in {{}, {NotExist}, {AtomicOverwriteUnsupported}, {IO}}
      ensures err != {} ==> dir.log == old(dir.log)
      ensures err == {} ==> Occupied(before, q) && |dir.log| == |old(dir.log)| + 1
      ensures err == {} ==>
        var op := dir.log[|old(dir.log)|];
        op.Exchanged? && op.a == Private(q) && op.b == Final() && op.atA == displaced && op.atB == dir.tree.priv[q]
      ensures dir.Calm() ==> err == {} && dir.tree.priv[q] == held
    {
      err := dir.Exchange(Private(q), Final());
      if err == {} {
        ghost var atFinal := dir.log[|dir.log| - 1].atB;
        assert dir.tree.priv == before.priv[q := atFinal];
        assert !dir.hostile ==> atFinal == held;
        if !dir.hostile && before.Get(Final()) == Some(displaced) {
          assert before.pub[finalName := displaced] == before.pub;
          assert dir.tree.pub == (before.pub - {partName})[finalName := held][finalName := displaced];
          assert dir.tree.pub == before.pub - {partName};
        }
      }
    }

    /** Unlinks the displaced target. */
    method DeleteDisplaced(q: nat, ghost before: Tree, ghost held: Entry, ghost displaced: Entry) returns (err: Err)
      requires Opened() && overwrite && target.Some? && Swapped(before, q, held, displaced) && held.id == partId
      modifies dir
      ensures OnlyPermitted()
      ensures err <= PLAIN
      ensures err != {} ==> CleanupIncomplete in err && dir.log == old(dir.log)
      ensures dir.Calm() && displaced.regular && displaced.id == target.value ==> err == {}
      ensures err == {} ==>
        && displaced.id == target.value && PublishedFrom(before)
        && dir.log == old(dir.log) + [Removed(Private(q), displaced)]
    {
      err := DeletePrivateRegular(dir, q, target.value);
      if err == {} {
        assert dir.tree.priv == before.priv;
      }
    }

    /** Replaces the accepted target by an exchange, checks what was displaced,
        and rolls back unless it was exactly that target. */
    method PublishOverwrite() returns (done: bool, err: Err)
      requires Opened() && overwrite
      modifies dir, this`publishedId
      ensures OnlyPermitted()
      ensures DestinationCommitted !in err && DestinationAborted !in err
      ensures err == {} ==> done
      ensures done && err != {} ==> CleanupIncomplete in err
      ensures done ==> err <= PLAIN
      ensures done && err == {} ==>
        && PublishedFrom(old(dir.tree))
        && (!dir.hostile ==> publishedId == Some(partId) && AcceptedTarget(old(dir.tree)))
      ensures dir.Calm() && Shows(old(dir.tree), Part(), partId) ==>
        if StillAccepted(old(dir.tree)) then err == {} else !done && CleanupIncomplete !in err && BackTo(old(dir.tree))
      ensures err == {} ==> Confirmed(dir.log, |old(dir.log)|, dir.seen, |old(dir.seen)|, Final(), partId)
      ensures !done && CleanupIncomplete !in err ==>
        BackTo(old(dir.tree)) || LeftCaptured(old(dir.tree), dir.tree, partId)
      ensures !dir.hostile ==> HonestCollision(old(dir.tree), err)
      ensures CleanupIncomplete !in err ==> AllSettled(dir.log, |old(dir.log)|, target, partId)
      // a target that has already changed is noticed before anything is moved
      ensures !dir.hostile && !AcceptedTarget(old(dir.tree)) ==> !done && dir.log == old(dir.log)
    {
      done := false;
      err := ValidateTargetUnchanged();
      if err != {} {
        return;
      }
      if target.None? {
        done, err := PublishAbsent(true);
      } else {
        done, err := ReplaceTarget();
      }
    }

    /** Exchanges the part file with the accepted target. */
    method ReplaceTarget() returns (done: bool, err: Err)
      requires Opened() && overwrite && target.Some?
      modifies dir, this`publishedId
      ensures OnlyPermitted()
      ensures err <= PLAIN
      ensures err == {} ==> done
      ensures done && err != {} ==> CleanupIncomplete in err
      ensures done && err == {} ==>
        && PublishedFrom(old(dir.tree))
        && (!dir.hostile ==> publishedId == Some(partId) && AcceptedTarget(old(dir.tree)))
      ensures dir.Calm() && Shows(old(dir.tree), Part(), partId) ==>
        if StillAccepted(old(dir.tree)) then err == {} else !done && CleanupIncomplete !in err && BackTo(old(dir.tree))
      ensures err == {} ==> Confirmed(dir.log, |old(dir.log)|, dir.seen, |old(dir.seen)|, Final(), partId)
      ensures !done && CleanupIncomplete !in err ==>
        BackTo(old(dir.tree)) || LeftCaptured(old(dir.tree), dir.tree, partId)
      ensures CleanupIncomplete !in err ==> AllSettled(dir.log, |old(dir.log)|, target, partId)
    {
      done := false;
      var q, probe;
      q, probe, err := TakePart();
      if err != {} {
        return;
      }
      ghost var displaced;
      ghost var held := dir.tree.priv[q];
      displaced, err := ExchangeToFinal(q, old(dir.tree));
      if err != {} {
        err := ExplainNoExchange(q, old(dir.tree), err);
        return;
      }
      done, err := FinishExchange(q, probe, old(dir.tree), held, displaced, |old(dir.log)|, |old(dir.seen)|);
    }

    /** The exchange failed without effect, so the part file goes back. */
    method ExplainNoExchange(q: nat, ghost before: Tree, cause: Err) returns (err: Err)
      requires Opened() && Holding(before, q) && cause != {} && cause <= PLAIN && CleanupIncomplete !in cause
      modifies dir
      ensures OnlyPermitted()
      ensures forall i | |old(dir.log)| <= i < |dir.log| :: dir.log[i].Renamed?
      ensures err != {} && err <= PLAIN
      ensures CleanupIncomplete !in err ==> BackTo(before)
      ensures dir.Calm() ==> CleanupIncomplete !in err
    {
      err := cause;
      if AtomicOverwriteUnsupported !in err {
        var raceErr := TargetRaceError();
        err := err + raceErr;
      }
      var restoreErr := PutPartBack(q, before);
      err := err + restoreErr;
    }

    /** Both names show what they should, so the displaced target goes. */
    method KeepReplacement(q: nat, ghost before: Tree, ghost held: Entry, ghost displaced: Entry,
                           ghost start: nat, ghost from: nat)
      returns (err: Err)
      requires Opened() && overwrite && target.Some? && Swapped(before, q, held, displaced) && held.id == partId
      requires start < |dir.log| && dir.log[|dir.log| - 1] == Exchanged(Private(q), Final(), held, displaced)
      requires forall i | start <= i < |dir.log| - 1 :: dir.log[i].Renamed?
      requires Confirmed(dir.log, start, dir.seen, from, Final(), partId)
      modifies dir
      ensures OnlyPermitted()
      ensures err <= PLAIN
      ensures err != {} ==> CleanupIncomplete in err
      ensures dir.Calm() && displaced.regular && displaced.id == target.value ==> err == {}
      ensures err == {} ==>
        && PublishedFrom(before) && displaced.id == target.value
        && Confirmed(dir.log, start, dir.seen, from, Final(), partId) && AllSettled(dir.log, start, target, partId)
    {
      ghost var at, log, seen := |dir.log| - 1, dir.log, dir.seen;
      err := DeleteDisplaced(q, before, held, displaced);
      if err == {} {
        ConfirmedLater(log, dir.log, start, seen, dir.seen, from, Final(), partId);
        assert dir.log[at + 1] == Removed(Private(q), displaced);
        assert Settled(dir.log, at, target);
      }
    }

    /** After the exchange: keep it only if both names show what they should. */
    method FinishExchange(q: nat, probe: Identity, ghost before: Tree, ghost held: Entry, ghost displaced: Entry,
                          ghost start: nat, ghost from: nat)
      returns (done: bool, err: Err)
      requires Opened() && overwrite && target.Some? && probe == partId && from <= |dir.seen|
      requires Swapped(before, q, held, displaced) && held.id == partId && held.regular
      requires start < |dir.log| && dir.log[|dir.log| - 1] == Exchanged(Private(q), Final(), held, displaced)
      requires forall i | start <= i < |dir.log| - 1 :: dir.log[i].Renamed?
      modifies dir, this`publishedId
      ensures OnlyPermitted()
      ensures err <= PLAIN
      ensures err == {} ==> done
      ensures done && err != {} ==> CleanupIncomplete in err
      ensures done ==> err <= PLAIN
      ensures done && err == {} ==>
        && PublishedFrom(before)
        && (!dir.hostile ==> publishedId == Some(partId) && before.Get(Final()) == Some(displaced)
                             && displaced.id == target.value)
      ensures !done && CleanupIncomplete !in err ==> BackTo(before)
      ensures CleanupIncomplete !in err ==> AllSettled(dir.log, start, target, partId)
      ensures err == {} ==> Confirmed(dir.log, start, dir.seen, from, Final(), partId)
      ensures dir.Calm() ==>
        if displaced.regular && displaced.id == target.value then err == {} else !done && CleanupIncomplete !in err
    {
      var finalErr := ConfirmPublished(probe, start, from);
      var displacedErr := ValidateNamedRegular(dir, Private(q), target.value);
      if finalErr == {} && displacedErr == {} {
        err := KeepReplacement(q, before, held, displaced, start, from);
        return true, err;
      }
      done, err := Undo(q, before, held, displaced, start, finalErr + displacedErr);
    }

    /** Something else than the accepted target was displaced, or the part file
        does not show: rolls back. */
    method Undo(q: nat, ghost before: Tree, ghost held: Entry, ghost displaced: Entry, ghost start: nat, cause: Err)
      returns (done: bool, err: Err)
      requires Opened() && overwrite && dir.swaps && cause != {} && cause <= PLAIN
      requires Swapped(before, q, held, displaced) && held.id == partId && held.regular
      requires start < |dir.log| && dir.log[|dir.log| - 1] == Exchanged(Private(q), Final(), held, displaced)
      requires forall i | start <= i < |dir.log| - 1 :: dir.log[i].Renamed?
      modifies dir
      ensures OnlyPermitted()
      ensures err != {} && err <= PLAIN
      ensures done ==> CleanupIncomplete in err
      ensures CleanupIncomplete !in err ==> BackTo(before) && AllSettled(dir.log, start, target, partId)
      ensures dir.Calm() && CleanupIncomplete !in cause ==> !done && CleanupIncomplete !in err
    {
      ghost var at := |dir.log| - 1;
      done, err := RollBack(q, before, held, displaced);
      if done {
        return true, err + cause + {CleanupIncomplete};
      }
      if CleanupIncomplete !in err {
        RollingBackSettles(dir.log, start, at, target, partId);
      }
      return false, cause + err;
    }

    /** Exchanges back and restores the part file; done when the exchange
        itself failed, so the part file stays published. */
    method RollBack(q: nat, ghost before: Tree, ghost held: Entry, ghost displaced: Entry)
      returns (done: bool, err: Err)
      requires Opened() && overwrite && dir.swaps && Swapped(before, q, held, displaced)
      modifies dir
      ensures OnlyPermitted()
      ensures err <= PLAIN
      ensures !done && CleanupIncomplete !in err ==> BackTo(before)
      ensures !done ==>
        && |dir.log| > |old(dir.log)|
        && (forall i | |old(dir.log)| < i < |dir.log| :: dir.log[i].Renamed?)
        && var op := dir.log[|old(dir.log)|];
           op.Exchanged? && op.a == Private(q) && op.b == Final() && op.atA == displaced
           && (CleanupIncomplete !in err ==> op.atB.id == partId)
      ensures dir.Calm() && held.regular && held.id == partId ==> !done && err == {}
    {
      err := ExchangeBack(q, before, held, displaced);
      if err != {} {
        return true, err;
      }
      err := PutPartBack(q, before);
      return false, err;
    }

    /** What must have stood under the final name when it was taken. */
    ghost predicate MayPublishOver(t: Tree) {
      if overwrite then AcceptedTarget(t) else t.Get(Final()).None?
    }

    /** What lets a publication succeed when nothing fails. */
    ghost predicate Publishable(t: Tree) {
      if overwrite then StillAccepted(t) else t.Get(Final()).None?
    }

    method PublishPart() returns (done: bool, err: Err)
      requires Opened()
      modifies dir, this`publishedId
      ensures OnlyPermitted()
      ensures DestinationCommitted !in err && DestinationAborted !in err
      ensures err == {} ==> done
      ensures done && err != {} ==> CleanupIncomplete in err
      ensures done ==> err <= PLAIN
      ensures done && err == {} ==>
        && PublishedFrom(old(dir.tree))
        && (!dir.hostile ==> MayPublishOver(old(dir.tree)) && publishedId == Some(partId))
      ensures dir.Calm() && Shows(old(dir.tree), Part(), partId) ==>
        if Publishable(old(dir.tree)) then err == {} else !done && CleanupIncomplete !in err && BackTo(old(dir.tree))
      ensures err == {} ==> Confirmed(dir.log, |old(dir.log)|, dir.seen, |old(dir.seen)|, Final(), partId)
      ensures !done && CleanupIncomplete !in err ==>
        BackTo(old(dir.tree)) || LeftCaptured(old(dir.tree), dir.tree, partId)
      ensures !dir.hostile ==> HonestCollision(old(dir.tree), err)
      ensures CleanupIncomplete !in err ==> AllSettled(dir.log, |old(dir.log)|, target, partId)
    {
      if overwrite {
        done, err := PublishOverwrite();
      } else {
        done, err := PublishAbsent(false);
      }
    }

    /** Publishes the closed part file and enters the terminal state. */
    method PublishAndFinish() returns (err: Err)
      requires Valid() && state == Open && Opened()
      modifies this, dir
      ensures Valid() && state != Open && OnlyPermitted()
      ensures (err == {} || DestinationCommitted in err) <==> published
      ensures state == Incomplete <==> CleanupIncomplete in err
      ensures state == Incomplete ==> terminalErr == err
      ensures CleanupIncomplete !in err ==>
        && dir.tree.priv == old(dir.tree.priv) && AllSettled(dir.log, |old(dir.log)|, target, partId)
        && (!dir.hostile ==> if published then CleanlyPublished(old(dir.tree)) else BackWithoutPart(old(dir.tree)))
      ensures !dir.hostile ==> HonestCollision(old(dir.tree), err)
      ensures published ==> err <= PLAIN + {DestinationCommitted}
      ensures published && CleanupIncomplete !in err ==>
        Confirmed(dir.log, |old(dir.log)|, dir.seen, |old(dir.seen)|, Final(), partId)
      ensures dir.Calm() && Shows(old(dir.tree), Part(), partId) ==>
        if Publishable(old(dir.tree)) then err == {} else state == Aborted
    {
      var done;
      done, err := PublishPart();
      if err == {} {
        err := FinishCommit();
      } else if done {
        err := FinishPublishedError(err);
      } else {
        ghost var earlier := dir.log;
        err := FailBeforeCommit(err);
        if CleanupIncomplete !in err {
          SettledLater(earlier, dir.log, |old(dir.log)|, target, partId);
        }
      }
    }

    /** Exactly the part file moved to the final name. */
    ghost predicate CleanlyPublished(before: Tree)
      reads this, dir
    {
      PublishedFrom(before) && MayPublishOver(before) && publishedId == Some(partId)
    }

    ghost predicate BackWithoutPart(before: Tree)
      reads dir
    {
      dir.tree == before.Drop(Part())
    }

    /** Syncs and closes the directory after publication. */
    method FinishCommit() returns (err: Err)
      requires state == Open && !published && dirOpen && terminalErr == {}
      modifies this`published, this`state, this`dirOpen, this`terminalErr
      ensures Valid() && published
      ensures err != {} ==> DestinationCommitted in err
      ensures err <= PLAIN + {DestinationCommitted}
      ensures state == Incomplete <==> CleanupIncomplete in err
      ensures state == Incomplete ==> terminalErr == err
      ensures dir.faultless ==> err == {}
    {
      published, state := true, Committed;
      err := {};
      var syncFails, closeFails: bool := *, *;
      if syncFails && !dir.faultless {
        err := {IO};
      }
      dirOpen := false;
      if closeFails && !dir.faultless {
        err := err + {CleanupIncomplete, IO};
      }
      if err != {} {
        err := err + {DestinationCommitted};
      }
      if CleanupIncomplete in err {
        state, terminalErr := Incomplete, err;
      }
    }

    method FinishPublishedError(publishErr: Err) returns (err: Err)
      requires state == Open && !published && dirOpen && terminalErr == {} && publishErr != {}
      modifies this`published, this`state, this`dirOpen, this`terminalErr
      ensures Valid() && published
      ensures DestinationCommitted in err && publishErr <= err <= publishErr + PLAIN + {DestinationCommitted}
      ensures state == Incomplete <==> CleanupIncomplete in err
      ensures state == Incomplete ==> terminalErr == err
    {
      var finishErr := FinishCommit();
      err := {DestinationCommitted} + publishErr + finishErr;
      if CleanupIncomplete in err {
        state, terminalErr := Incomplete, err;
      }
    }

    /** The part descriptor is closed at most once, also when that fails. */
    method CloseFile() returns (err: Err)
      modifies this`file, this`File
      ensures err in {{}, {CleanupIncomplete, IO}}
      ensures file.None? && File == (if old(file).Some? && old(File) == old(file) then None else old(File))
      ensures dir.faultless || old(file).None? ==> err == {}
    {
      err := {};
      var fails: bool := *;
      if file.Some? {
        if fails && !dir.faultless {
          err := {CleanupIncomplete, IO};
        }
        if File == file {
          File := None;
        }
        file := None;
      }
    }

    /** Closes and removes the part file. */
    method AbortOpen() returns (err: Err)
      requires Valid() && state == Open && Opened()
      modifies this`file, this`File, this`dirOpen, this`state, this`terminalErr, dir
      ensures Valid() && OnlyPermitted()
      ensures forall i | |old(dir.log)| <= i < |dir.log| :: !dir.log[i].Exchanged?
      ensures err <= PLAIN
      ensures if err == {} then state == Aborted else state == Incomplete && CleanupIncomplete in err
      ensures state == Incomplete ==> terminalErr == err
      ensures HeldPrivately(old(dir.tree), partId) ==> err != {}
      ensures err == {} ==>
        dir.tree.priv == old(dir.tree.priv) && (!dir.hostile ==> dir.tree == old(dir.tree).Drop(Part()))
      ensures dir.Calm() && Shows(old(dir.tree), Part(), partId) ==> err == {}
    {
      err := CloseFile();
      var removeErr := QuarantineRemove(dir, Part(), partId);
      if removeErr != {} {
        err := err + {CleanupIncomplete} + removeErr;
      }
      dirOpen := false;
      var closeFails: bool := *;
      if closeFails && !dir.faultless {
        err := err + {CleanupIncomplete, IO};
      }
      if err != {} {
        state, terminalErr := Incomplete, err;
      } else {
        state := Aborted;
      }
    }

    method FailBeforeCommit(primary: Err) returns (err: Err)
      requires Valid() && state == Open && Opened() && primary != {}
      requires DestinationCommitted !in primary && DestinationAborted !in primary
      modifies this`file, this`File, this`dirOpen, this`state, this`terminalErr, dir
      ensures Valid() && OnlyPermitted() && !published && state != Open
      ensures forall i | |old(dir.log)| <= i < |dir.log| :: !dir.log[i].Exchanged?
      ensures DestinationCommitted !in err && primary <= err <= primary + PLAIN
      ensures state == Incomplete <==> CleanupIncomplete in err
      ensures state == Incomplete ==> terminalErr == err
      ensures HeldPrivately(old(dir.tree), partId) ==> CleanupIncomplete in err
      ensures dir.Calm() && Shows(old(dir.tree), Part(), partId) && CleanupIncomplete !in primary ==> state == Aborted
      ensures CleanupIncomplete !in err ==>
        dir.tree.priv == old(dir.tree.priv) && (!dir.hostile ==> dir.tree == old(dir.tree).Drop(Part()))
    {
      var cleanupErr := AbortOpen();
      err := primary + cleanupErr;
      if CleanupIncomplete in err {
        state, terminalErr := Incomplete, err;
      }
    }

    function LifecycleError(): Err
      reads this
    {
      match state
      case Open => {}
      case Committed => {DestinationCommitted}
      case Aborted => {DestinationAborted}
      case Incomplete => terminalErr
    }

    /** The exported copies are as open left them. */
    predicate Untampered()
      reads this
    {
      file.Some? && File == file && FinalPath == finalPath && PartPath == partPath
    }

    /** Syncs, closes and publishes the part file, exactly once. */
    method Commit() returns (err: Err)
      requires Valid() && (state == Open ==> Opened())
      modifies this, dir
      ensures Valid() && state != Open
      // the outcome is told apart by the error alone
      ensures (err == {} || DestinationCommitted in err) <==> published
      ensures old(state) == Open ==> (state == Incomplete <==> CleanupIncomplete in err)
      ensures state == Incomplete ==> terminalErr == err
      // a terminal destination answers without touching anything
      ensures old(state) != Open ==> err == old(LifecycleError()) && unchanged(this) && unchanged(dir)
      // whoever else interferes, only the part file and the accepted target are unlinked, and
      // without overwrite the final name is only ever filled while absent
      ensures old(state) == Open ==> OnlyPermitted()
      // nothing is stranded under a private name and no displaced file is lost without a report
      ensures old(state) == Open && CleanupIncomplete !in err ==>
        dir.tree.priv == old(dir.tree.priv) && AllSettled(dir.log, |old(dir.log)|, target, partId)
      // a publication reported clean was seen under the final name, whoever else interferes
      ensures old(state) == Open && published && CleanupIncomplete !in err ==>
        Confirmed(dir.log, |old(dir.log)|, dir.seen, |old(dir.seen)|, Final(), partId)
      // nothing failing, an untampered destination is published if it may be, and else aborted cleanly
      ensures old(state) == Open && dir.Calm() && old(Shows(dir.tree, Part(), partId)) ==>
        if old(Untampered()) && Publishable(old(dir.tree)) then err == {} else !published && state == Aborted
      ensures old(state) == Open && !old(Untampered()) ==> InvalidDestination in err && !published
      // alone, the directory ends with the part file published or gone and nothing else changed
      ensures old(state) == Open && !dir.hostile && CleanupIncomplete !in err ==>
        if published then CleanlyPublished(old(dir.tree)) else BackWithoutPart(old(dir.tree))
      ensures old(state) == Open && !dir.hostile ==> HonestCollision(old(dir.tree), err)
      ensures old(state) == Open && published ==> err <= PLAIN + {DestinationCommitted}
    {
      err := LifecycleError();
      if state != Open {
        return;
      }
      if file.None? || File != file || FinalPath != finalPath || PartPath != partPath {
        err := FailBeforeCommit({InvalidDestination});
        return;
      }
      var syncFails, closeFails: bool := *, *;
      if syncFails && !dir.faultless {
        err := FailBeforeCommit({IO});  // chmod or sync failed
        return;
      }
      file, File := None, None;
      if closeFails && !dir.faultless {
        err := FailBeforeCommit({CleanupIncomplete, IO});  // close failed
        return;
      }
      err := PublishAndFinish();
    }

    /** Removes the part file; harmless when repeated. */
    method Abort() returns (err: Err)
      requires Valid() && (state == Open ==> Opened())
      modifies this, dir
      ensures Valid() && state != Open
      ensures old(state) == Open ==> OnlyPermitted() && !published && err <= PLAIN
      ensures old(state) == Open ==>
        if err == {} then state == Aborted else state == Incomplete && CleanupIncomplete in err
      ensures state == Incomplete ==> terminalErr == err
      ensures old(state) == Open && err == {} ==>
        dir.tree.priv == old(dir.tree.priv) && (!dir.hostile ==> dir.tree == old(dir.tree).Drop(Part()))
      ensures old(state) == Open && dir.Calm() && old(Shows(dir.tree, Part(), partId)) ==> err == {}
      ensures old(state) != Open ==> unchanged(this) && unchanged(dir)
      ensures old(state) != Open ==> err == if state == Aborted then {} else LifecycleError()
    {
      match state
      case Open => err := AbortOpen();
      case Committed => err := {DestinationCommitted};
      case Aborted => err := {};
      case Incomplete => err := terminalErr;
    }
  }

  lemma ConfirmedLater(log: seq<Op>, log': seq<Op>, start: nat, seen: seq<Sight>, seen': seq<Sight>, from: nat,
                       final: Name, id: Identity)
    requires log <= log' && seen <= seen' && Confirmed(log, start, seen, from, final, id)
    ensures Confirmed(log', start, seen', from, final, id)
  {
    var i, j :| start <= j < |log| && Publishes(log[j], final, id)
      && from <= i < |seen| && Sighted(seen[i], final, id) && seen[i].after > j;
    assert log'[j] == log[j] && seen'[i] == seen[i];
  }

  lemma RollingBackSettles(log: seq<Op>, start: nat, at: nat, accepted: Option<Identity>, part: Identity)
    requires start <= at && at + 1 < |log|
    requires log[at].Exchanged? && log[at + 1].Exchanged?
    requires log[at].a == log[at + 1].a && log[at].b == log[at + 1].b && log[at + 1].atA == log[at].atB
    requires log[at + 1].atB.id == part
    requires forall i | start <= i < |log| && i != at && i != at + 1 :: log[i].Renamed?
    ensures AllSettled(log, start, accepted, part)
  {
    assert Settled(log, at, accepted);
    assert PutsBack(log, at, at + 1, part);
  }

  lemma SettledLater(earlier: seq<Op>, later: seq<Op>, start: nat, accepted: Option<Identity>, part: Identity)
    requires earlier <= later && AllSettled(earlier, start, accepted, part)
    requires forall i | |earlier| <= i < |later| :: !later[i].Exchanged?
    ensures AllSettled(later, start, accepted, part)
  {
    forall i | start <= i < |later| && later[i].Exchanged?
      ensures Settled(later, i, accepted) || exists j :: start <= j < i && PutsBack(later, j, i, part)
    {
      assert i < |earlier| && earlier[i] == later[i];
      if Settled(earlier, i, accepted) {
        var j :| i < j < |earlier| && (
          || (earlier[j] == Removed(earlier[i].a, earlier[i].atB) && accepted == Some(earlier[i].atB.id))
          || (earlier[j].Exchanged? && earlier[j].a == earlier[i].a && earlier[j].b == earlier[i].b
              && earlier[j].atA == earlier[i].atB));
        assert later[j] == earlier[j];
      } else {
        var j :| start <= j < i && PutsBack(earlier, j, i, part);
        assert PutsBack(later, j, i, part);
      }
    }
  }
}
