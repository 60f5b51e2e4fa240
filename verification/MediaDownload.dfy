/** The download command as a client of Destination and LimitWriter, and what
    the destination's log means for the files of the directory. */
module MediaDownload {
  import opened Wrappers
  import opened AnchoredDirectory
  import opened DownloadDestination
  import opened DownloadOpening
  import opened Quarantine

  /** Writes at most max bytes to the open part; zero is unlimited. */
  class LimitWriter {
    const dir: Directory
    const id: Identity
    const max: int
    const steady: bool  // the file accepts everything
    var n: int

    constructor (dir: Directory, id: Identity, max: int, steady: bool)
      ensures this.dir == dir && this.id == id && this.max == max && this.steady == steady && n == 0
    {
      this.dir, this.id, this.max, this.steady, n := dir, id, max, steady, 0;
    }

    ghost predicate Valid()
      reads this
    {
      0 <= n && (max > 0 ==> n <= max)
    }

    /** Offers length bytes; written of them reach the file and are counted. */
    method Write(length: nat) returns (written: nat, err: Err)
      requires Valid() && dir.Valid()
      modifies this`n, dir
      ensures Valid() && dir.Valid() && dir.log == old(dir.log) && dir.created == old(dir.created)
      ensures old(dir.bound) <= dir.bound
      ensures err <= {InvalidLimit, LimitExceeded, IO}
      ensures written <= length && n == old(n) + written
      ensures err == {} ==> written == length
      ensures max < 0 ==> err == {InvalidLimit} && written == 0
      ensures max > 0 && old(n) + length > max ==> err != {}
      ensures steady && max >= 0 ==> err == if max > 0 && old(n) + length > max then {LimitExceeded} else {}
      ensures LimitExceeded in err ==> max > 0 && n == max && old(n) + length > max
      ensures err == {LimitExceeded} || err == {} ==> n == if max > 0 && old(n) + length > max then max else old(n) + length
      ensures dir.tree.priv == Grown(old(dir.tree), id, written).priv
      ensures !dir.hostile ==> dir.tree == Grown(old(dir.tree), id, written)
    {
      if max < 0 {
        NothingGrows(dir.tree, id);
        return 0, {InvalidLimit};
      }
      var allowed, limited := length, false;
      if max > 0 {
        var remaining := max - n;
        if remaining <= 0 && length != 0 {
          NothingGrows(dir.tree, id);
          return 0, {LimitExceeded};
        }
        if allowed > remaining {
          allowed, limited := remaining, true;
        }
      }
      // the file accepts all, or fails having accepted some
      written := allowed;
      err := {};
      var broken: bool := *;
      if broken && !steady {
        written :| 0 <= written <= allowed;
        err := {IO};
      }
      dir.Append(id, written);
      n := n + written;
      if limited && written == allowed {
        err := err + {LimitExceeded};
      }
    }
  }

  lemma NothingGrows(t: Tree, id: Identity)
    ensures Grown(t, id, 0) == t
  {
    assert Grown(t, id, 0).pub == t.pub;
    assert Grown(t, id, 0).priv == t.priv;
  }

  lemma PartGrows(t: Tree, links: map<Identity, Name>, bound: nat, part: Name, id: Identity, size: nat, more: nat)
    requires t.Put(part, Entry(id, true, size)).WellFormed(links, bound) && part.Public? && t.Get(part).None?
    ensures Grown(t.Put(part, Entry(id, true, size)), id, more) == t.Put(part, Entry(id, true, size + more))
  {
    var u := t.Put(part, Entry(id, true, size));
    forall s | s in t.pub ensures t.pub[s].id != id {
      assert u.pub[s] == t.pub[s] && u.pub[part.component].id == id;
    }
    forall k | k in t.priv ensures t.priv[k].id != id {
      assert u.priv[k] == t.priv[k] && u.pub[part.component].id == id;
    }
    assert Grown(u, id, more).pub == u.pub[part.component := Entry(id, true, size + more)];
    assert Grown(u, id, more).priv == t.priv;
  }

  /** How a command ends: a response, possibly with a committed-download error. */
  datatype Response =
    | Refused
    | Skipped(bytes: nat, id: Identity)
    | Downloaded(bytes: nat)
    | CommittedWithError(bytes: nat)

  method AbortDownload(d: Destination, primary: Err) returns (err: Err)
    requires d.Valid() && (d.state == Open ==> d.Opened())
    modifies d, d.dir
    ensures d.Valid() && d.state != Open
    ensures primary <= err
    ensures old(d.state) == Open ==>
      && d.OnlyPermitted() && !d.published && (DestinationCommitted in err <==> DestinationCommitted in primary)
      && (CleanupIncomplete !in err ==>
           && d.dir.tree.priv == old(d.dir.tree.priv)
           && (!d.dir.hostile ==> d.dir.tree == old(d.dir.tree).Drop(d.Part())))
    ensures old(d.state) != Open ==> unchanged(d) && unchanged(d.dir)
    ensures d.published ==> CleanupIncomplete in err
    ensures old(d.state) != Open ==> (DestinationCommitted in err <==> DestinationCommitted in primary || d.published)
  {
    err := d.Abort();
    if DestinationCommitted in err {
      err := err + {CleanupIncomplete};
    }
    err := primary + err;
  }

  function CollisionResponse(err: Err, size: nat, id: Identity): Response {
    if CleanupIncomplete in err then Refused else Skipped(size, id)
  }

  function Total(chunks: seq<nat>): nat {
    if chunks == [] then 0 else Total(chunks[..|chunks| - 1]) + chunks[|chunks| - 1]
  }

  lemma {:induction false} PrefixTotal(chunks: seq<nat>, i: nat)
    requires i <= |chunks|
    ensures Total(chunks[..i]) <= Total(chunks)
  {
    if i == |chunks| {
      assert chunks[..i] == chunks;
    } else {
      PrefixTotal(chunks[..|chunks| - 1], i);
      assert chunks[..|chunks| - 1][..i] == chunks[..i];
    }
  }

  /** Streams the chunks that Telegram serves, any number of any size. Unless the
      transfer is steady it may break off at any of them. */
  method Transfer(d: Destination, w: LimitWriter, chunks: seq<nat>, ghost before: Tree) returns (err: Err)
    requires d.Valid() && d.state == Open && d.Opened()
    requires w.Valid() && w.n == 0 && w.dir == d.dir && w.id == d.partId
    requires !d.dir.hostile ==> before.Get(d.Part()).None? && d.dir.tree == before.Put(d.Part(), Entry(d.partId, true, 0))
    modifies w`n, d.dir
    ensures w.Valid() && d.Opened() && d.dir.log == old(d.dir.log) && d.dir.created == old(d.dir.created)
    ensures d.dir.tree.priv.Keys == old(d.dir.tree.priv).Keys
    ensures err == {} ==> w.max >= 0 && w.n == Total(chunks)
    ensures w.steady ==> (err == {} <==> w.max >= 0 && (w.max > 0 ==> Total(chunks) <= w.max))
    ensures DestinationCommitted !in err && CleanupIncomplete !in err
    ensures !d.dir.hostile ==> d.dir.tree == before.Put(d.Part(), Entry(d.partId, true, w.n))
  {
    err := {};
    if w.max < 0 {
      err := {InvalidLimit};
    }
    for i := 0 to |chunks|
      invariant w.Valid() && d.Opened() && d.dir.log == old(d.dir.log) && d.dir.created == old(d.dir.created)
      invariant d.dir.tree.priv.Keys == old(d.dir.tree.priv).Keys
      invariant err == if w.max < 0 then {InvalidLimit} else {}
      invariant w.n == Total(chunks[..i])
      invariant !d.dir.hostile ==> d.dir.tree == before.Put(d.Part(), Entry(d.partId, true, w.n))
    {
      ghost var size, links, bound := w.n, d.dir.links, d.dir.bound;
      var written, writeErr := w.Write(chunks[i]);
      if !d.dir.hostile {
        PartGrows(before, links, bound, d.Part(), d.partId, size, written);
      }
      assert chunks[..i + 1][..i] == chunks[..i];
      if writeErr != {} {
        PrefixTotal(chunks, i + 1);
        return {TransferFailed} + writeErr;
      }
      var broken: bool := *;
      if broken && !w.steady {
        return {TransferFailed};
      }
    }
    assert chunks[..|chunks|] == chunks;
  }

  /** What is served is within the limit and of the stated size. */
  predicate Fits(chunks: seq<nat>, maxBytes: int, size: Option<nat>) {
    && maxBytes >= 0 && (maxBytes > 0 ==> Total(chunks) <= maxBytes)
    && (size.Some? ==> size.value == Total(chunks))
  }

  /** Downloads a message's media into the directory under a safe name. size
      is the authoritative size when the server states one. */
  method DownloadExtracted(dir: Directory, dirPath: string, safeName: string, overwrite: bool,
                           maxBytes: int, size: Option<nat>, chunks: seq<nat>, steady: bool)
    returns (response: Response, err: Err)
    requires dir.Valid()
    modifies dir
    // a plain success has the authoritative size and respects the limit
    ensures response.Downloaded? ==> err == {}
    ensures response.Downloaded? || response.CommittedWithError? ==>
      && (maxBytes > 0 ==> response.bytes <= maxBytes)
      && response.bytes == Total(chunks) && (size.Some? ==> response.bytes == size.value)
    ensures response.CommittedWithError? <==> DestinationCommitted in err
    ensures response.Refused? ==> err != {}
    // nothing failing, a steady transfer that fits ends in the file, unless one is in its place
    ensures dir.Calm() && dir.refusesReplace && (overwrite ==> dir.swaps) && steady && Fits(chunks, maxBytes, size) ==>
      match old(dir.tree).Get(Public(safeName))
      case None => response == Downloaded(Total(chunks))
      case Some(e) => overwrite && e.regular ==> response == Downloaded(Total(chunks))
    ensures dir.Calm() && !overwrite && old(dir.tree).Get(Public(safeName)).Some?
            && !(size.Some? && maxBytes > 0 && size.value > maxBytes) ==>
      var e := old(dir.tree).Get(Public(safeName)).value;
      if e.regular then response == Skipped(e.size, e.id) else response.Refused?
    ensures size.Some? && maxBytes > 0 && size.value > maxBytes ==>
      response.Refused? && err == {LimitExceeded} && unchanged(dir)
    // alone, the directory is as before except for exactly the reported file
    ensures !dir.hostile && response.Downloaded? ==>
      exists id :: id >= old(dir.bound) &&
        dir.tree == old(dir.tree).Put(Public(safeName), Entry(id, true, response.bytes))
    ensures response.CommittedWithError? ==> CleanupIncomplete in err
    ensures !dir.hostile && response.Skipped? ==>
      && !overwrite && dir.tree == old(dir.tree)
      && old(dir.tree).Get(Public(safeName)) == Some(Entry(response.id, true, response.bytes))
    ensures !dir.hostile && response.Refused? && CleanupIncomplete !in err ==> dir.tree == old(dir.tree)
  {
    if size.Some? && maxBytes > 0 && size.value > maxBytes {
      return Refused, {LimitExceeded};
    }
    var d, openErr, _ := OpenDestination(dir, dirPath, safeName, overwrite);
    if d == null {
      if c :| c in openErr && c.DestinationExists? {
        if !overwrite {
          return CollisionResponse(openErr, c.size, c.id), openErr;
        }
      }
      return Refused, openErr;
    }
    response, err := DownloadInto(d, maxBytes, size, chunks, steady, old(dir.tree));
    assert response.Downloaded? && !dir.hostile ==> d.partId >= old(dir.bound);
  }

  method DownloadInto(d: Destination, maxBytes: int, size: Option<nat>, chunks: seq<nat>, steady: bool, ghost before: Tree)
    returns (response: Response, err: Err)
    requires d.Valid() && d.state == Open && d.Opened()
    requires !d.dir.hostile ==>
      && before.Get(d.Part()).None?
      && d.dir.tree == before.Put(d.Part(), Entry(d.partId, true, 0))
      && d.Publishable(before) && d.Untampered()
    modifies d, d.dir
    ensures d.dir.Valid()
    ensures d.dir.Calm() && steady && Fits(chunks, maxBytes, size) ==> response == Downloaded(Total(chunks))
    ensures response.Downloaded? ==> err == {}
    ensures response.Downloaded? || response.CommittedWithError? ==>
      && (maxBytes > 0 ==> response.bytes <= maxBytes)
      && response.bytes == Total(chunks) && (size.Some? ==> response.bytes == size.value)
    ensures response.CommittedWithError? <==> DestinationCommitted in err
    ensures response.CommittedWithError? ==> CleanupIncomplete in err
    ensures response.Refused? ==> err != {}
    ensures !d.dir.hostile && response.Downloaded? ==>
      d.dir.tree == before.Put(d.Final(), Entry(d.partId, true, response.bytes))
    ensures !d.dir.hostile ==> !response.Skipped?
    ensures response.Skipped? ==> !d.overwrite
    ensures !d.dir.hostile && response.Refused? && CleanupIncomplete !in err ==> d.dir.tree == before
  {
    var w := new LimitWriter(d.dir, d.partId, maxBytes, steady);
    err := Transfer(d, w, chunks, before);
    if err == {} && size.Some? && w.n != size.value {
      err := {TransferFailed};
    }
    ghost var streamed := d.dir.tree;
    assert !d.dir.hostile ==> streamed == before.Put(d.Part(), Entry(d.partId, true, w.n));
    assert !d.dir.hostile ==> streamed.Drop(d.Part()) == before by {
      assert before.Get(d.Part()).None? ==>
        before.pub[d.partName := Entry(d.partId, true, w.n)] - {d.partName} == before.pub;
    }
    if err != {} {
      err := AbortDownload(d, err);
      return Refused, err;
    }
    response, err := Publish(d, w.n);
  }

  /** The transfer is complete: publishes it and answers. */
  method Publish(d: Destination, written: nat) returns (response: Response, err: Err)
    requires d.Valid() && d.state == Open && d.Opened()
    modifies d, d.dir
    ensures d.dir.Valid()
    ensures d.dir.Calm() && old(d.Untampered() && Shows(d.dir.tree, d.Part(), d.partId) && d.Publishable(d.dir.tree)) ==>
      response == Downloaded(written)
    ensures response.Downloaded? ==> err == {} && response.bytes == written
    ensures response.CommittedWithError? ==> CleanupIncomplete in err && response.bytes == written
    ensures response.CommittedWithError? <==> DestinationCommitted in err
    ensures response.Refused? ==> err != {}
    ensures !d.dir.hostile && response.Downloaded? ==> d.CleanlyPublished(old(d.dir.tree))
    // alone, a skipped file stood under the final name all along
    ensures response.Skipped? ==>
      !d.overwrite && (!d.dir.hostile ==> old(d.dir.tree).Get(d.Final()) == Some(Entry(response.id, true, response.bytes)))
    ensures !d.dir.hostile && response.Refused? && CleanupIncomplete !in err ==> d.BackWithoutPart(old(d.dir.tree))
  {
    err := d.Commit();
    if err == {} {
      return Downloaded(written), {};
    }
    if c :| c in err && c.DestinationExists? {
      if !d.overwrite {
        return CollisionResponse(err, c.size, c.id), err;
      }
    }
    err := AbortDownload(d, err);
    if DestinationCommitted in err {
      return CommittedWithError(written), err;
    }
    return Refused, err;
  }

  /** Files whose link this process destroyed from index start on: removed
      outright, or replaced by a rename. */
  ghost function Unlinked(log: seq<Op>, start: nat): set<Identity>
    decreases |log| - start
  {
    if start >= |log| then {}
    else
      var rest := Unlinked(log, start + 1);
      match log[start]
      case Removed(_, e) => {e.id} + rest
      case Renamed(_, _, _, Some(e)) => {e.id} + rest
      case _ => rest
  }

  /** Between open and terminal state only the part file and the accepted
      target can lose their link, whatever anybody else does. */
  lemma {:induction false} CommitUnlinksOnlyOwn(log: seq<Op>, start: nat, part: Name, final: Name, overwrite: bool,
                                                removable: set<Identity>)
    requires forall i | start <= i < |log| :: Permitted(log[i], part, final, overwrite, removable)
    ensures Unlinked(log, start) <= removable
    decreases |log| - start
  {
    if start < |log| {
      CommitUnlinksOnlyOwn(log, start + 1, part, final, overwrite, removable);
      assert Permitted(log[start], part, final, overwrite, removable);
    }
  }

  /** While opening, no file that existed before is unlinked at all. */
  lemma {:induction false} OpenUnlinksOnlyProbes(log: seq<Op>, start: nat, part: Option<Name>, made: set<Identity>,
                                                 bound: nat)
    requires forall i | start <= i < |log| :: OpenPermitted(log[i], part, made)
    requires forall id | id in made :: bound <= id
    ensures forall id | id in Unlinked(log, start) :: bound <= id
    decreases |log| - start
  {
    if start < |log| {
      OpenUnlinksOnlyProbes(log, start + 1, part, made, bound);
      assert OpenPermitted(log[start], part, made);
    }
  }

  /** The entry an operation takes away from a name, if any. */
  function TakenFrom(op: Op, n: Name): Option<Entry> {
    match op
    case Created(_, _) => None
    case Renamed(from, to, e, over) => if from == n then Some(e) else if to == n then over else None
    case Exchanged(a, b, atA, atB) => if a == n then Some(atA) else if b == n then Some(atB) else None
    case Removed(m, e) => if m == n then Some(e) else None
  }

  /** Without overwrite nothing is ever taken from the final name. */
  lemma NoOverwriteNeverTakesFinal(log: seq<Op>, start: nat, part: Name, final: Name, removable: set<Identity>)
    requires part.Public? && final.Public? && part != final
    requires forall i | start <= i < |log| :: Permitted(log[i], part, final, false, removable)
    ensures forall i | start <= i < |log| :: TakenFrom(log[i], final).None?
    ensures forall i | start <= i < |log| ::
      match log[i]
      case Created(_, _) => true
      case Renamed(from, to, _, over) => from != final && (to == final ==> over.None?)
      case Exchanged(a, b, _, _) => final != a && final != b
      case Removed(n, _) => n != final
  {
    forall i | start <= i < |log| ensures TakenFrom(log[i], final).None? {
      assert Permitted(log[i], part, final, false, removable);
    }
  }

  datatype Call = CallCommit | CallAbort

  /** What a terminal destination answers. */
  function Repeated(d: Destination, call: Call): Err
    reads d
  {
    if call == CallAbort && d.state == Aborted then {} else d.LifecycleError()
  }

  /** Once terminal, any number of further calls changes nothing, neither of the
      destination nor of the directory, and each kind repeats its answer. */
  method CallTerminal(d: Destination, calls: seq<Call>) returns (errs: seq<Err>)
    requires d.Valid() && d.state != Open
    modifies d, d.dir
    ensures unchanged(d) && unchanged(d.dir)
    ensures |errs| == |calls| && forall i | 0 <= i < |calls| :: errs[i] == Repeated(d, calls[i])
  {
    errs := [];
    for n := 0 to |calls|
      invariant unchanged(d) && unchanged(d.dir)
      invariant |errs| == n && forall i | 0 <= i < n :: errs[i] == Repeated(d, calls[i])
    {
      var err;
      if calls[n] == CallCommit {
        err := d.Commit();
      } else {
        err := d.Abort();
      }
      errs := errs + [err];
    }
  }

  /** Any sequence of Commit and Abort calls: the first decides, and the rest
      are calls on a terminal destination. */
  method CallAll(d: Destination, calls: seq<Call>) returns (errs: seq<Err>)
    requires d.Valid() && d.state == Open && d.Opened()
    modifies d, d.dir
    ensures |errs| == |calls| && d.Valid() && d.OnlyPermitted()
    ensures calls == [] ==> unchanged(d) && unchanged(d.dir)
    ensures calls != [] ==> d.state != Open
    ensures forall i | 0 < i < |calls| :: errs[i] == Repeated(d, calls[i])
    ensures forall i | 0 <= i < |calls| && calls[i] == CallCommit ::
      (errs[i] == {} || DestinationCommitted in errs[i]) <==> d.published
    ensures forall i, j | 0 <= i <= j < |calls| && CleanupIncomplete in errs[i] :: errs[j] == errs[i]
  {
    if calls == [] {
      return [];
    }
    var err;
    if calls[0] == CallCommit {
      err := d.Commit();
    } else {
      err := d.Abort();
    }
    var rest := CallTerminal(d, calls[1..]);
    errs := [err] + rest;
  }
}
