/** The anchored download directory: its entries, the atomic operations the
    destination protocol uses, and the other process that may rewrite public
    names between any two of them. */
module AnchoredDirectory {
  import opened Wrappers

  /** Device and inode. An identity is never reused for another file. */
  type Identity = nat

  /** Part and final names are public; probe and quarantine names carry 128
      random bits, so nobody else is assumed to touch them. */
  datatype Name = Public(component: string) | Private(token: nat)

  datatype Entry = Entry(id: Identity, regular: bool, size: nat)

  /** The sentinels that errors.Is can find in a returned error. */
  datatype Sentinel =
    | DestinationExists(size: nat, id: Identity)
    | UnsafeDestination
    | DestinationCommitted
    | DestinationAborted
    | InvalidDestination
    | DestinationChanged
    | AtomicOverwriteUnsupported
    | CleanupIncomplete
    | Exist
    | NotExist
    | IO
    | TransferFailed
    | LimitExceeded
    | InvalidLimit

  /** nil is the empty set and errors.Join is union. */
  type Err = set<Sentinel>

  /** Everything an unfinished destination reports besides collisions. */
  const PLAIN: Err :=
    {UnsafeDestination, InvalidDestination, DestinationChanged, AtomicOverwriteUnsupported, CleanupIncomplete,
     Exist, NotExist, IO}

  datatype Tree = Tree(pub: map<string, Entry>, priv: map<nat, Entry>) {
    function Get(n: Name): Option<Entry> {
      match n
      case Public(s) => if s in pub then Some(pub[s]) else None
      case Private(t) => if t in priv then Some(priv[t]) else None
    }

    function Put(n: Name, e: Entry): Tree {
      match n
      case Public(s) => this.(pub := pub[s := e])
      case Private(t) => this.(priv := priv[t := e])
    }

    function Drop(n: Name): Tree {
      match n
      case Public(s) => this.(pub := pub - {s})
      case Private(t) => this.(priv := priv - {t})
    }

    /** Every identity is below bound and is linked under one name only. */
    predicate WellFormed(links: map<Identity, Name>, bound: nat) {
      && (forall s | s in pub :: pub[s].id < bound && pub[s].id in links && links[pub[s].id] == Public(s))
      && (forall t | t in priv :: priv[t].id < bound && priv[t].id in links && links[priv[t].id] == Private(t))
    }
  }

  /** What this process has done to the directory, in order. A rename that
      replaced its target records the lost entry in over. */
  datatype Op =
    | Created(name: Name, entry: Entry)
    | Renamed(from: Name, to: Name, entry: Entry, over: Option<Entry>)
    | Exchanged(a: Name, b: Name, atA: Entry, atB: Entry)
    | Removed(name: Name, entry: Entry)

  lemma PuttingUnlinkedKeepsWellFormed(t: Tree, to: Name, e: Entry, links: map<Identity, Name>, bound: nat)
    requires t.WellFormed(links, bound) && e.id < bound
    requires e.id in links ==> t.Get(links[e.id]).None? || t.Get(links[e.id]).value.id != e.id
    ensures t.Put(to, e).WellFormed(links[e.id := to], bound)
  {
    match to
    case Public(_) =>
    case Private(_) =>
  }

  lemma MovingKeepsWellFormed(t: Tree, from: Name, to: Name, links: map<Identity, Name>, bound: nat)
    requires t.WellFormed(links, bound) && t.Get(from).Some?
    ensures t.Drop(from).Put(to, t.Get(from).value).WellFormed(links[t.Get(from).value.id := to], bound)
  {
    PuttingUnlinkedKeepsWellFormed(t.Drop(from), to, t.Get(from).value, links, bound);
  }

  lemma SwappingPublic(t: Tree, a: Name, b: Name, links: map<Identity, Name>, bound: nat)
    requires t.WellFormed(links, bound) && t.Get(a).Some? && t.Get(b).Some? && a.Private? && b.Public? && a != b
    ensures
      var atA, atB := t.Get(a).value, t.Get(b).value;
      t.Put(a, atB).Put(b, atA).WellFormed(links[atB.id := a][atA.id := b], bound)
  {
    assert links[t.Get(a).value.id] == a && links[t.Get(b).value.id] == b;
  }

  lemma SwappingPrivate(t: Tree, a: Name, b: Name, links: map<Identity, Name>, bound: nat)
    requires t.WellFormed(links, bound) && t.Get(a).Some? && t.Get(b).Some? && a.Private? && b.Private? && a != b
    ensures
      var atA, atB := t.Get(a).value, t.Get(b).value;
      t.Put(a, atB).Put(b, atA).WellFormed(links[atB.id := a][atA.id := b], bound)
  {
    assert links[t.Get(a).value.id] == a && links[t.Get(b).value.id] == b;
  }

  lemma SwappingKeepsWellFormed(t: Tree, a: Name, b: Name, links: map<Identity, Name>, bound: nat)
    requires t.WellFormed(links, bound) && t.Get(a).Some? && t.Get(b).Some? && a.Private? && a != b
    ensures
      var atA, atB := t.Get(a).value, t.Get(b).value;
      t.Put(a, atB).Put(b, atA).WellFormed(links[atB.id := a][atA.id := b], bound)
  {
    match b
    case Public(_) => SwappingPublic(t, a, b, links, bound);
    case Private(_) => SwappingPrivate(t, a, b, links, bound);
  }

  /** An inspection: what a name showed, and how many operations of this process
      had happened by then. */
  datatype Sight = Sight(name: Name, entry: Entry, after: nat)

  class Directory {
    const hostile: bool          // another process rewrites public names
    const refusesReplace: bool   // no-replace rename honours its flag
    const swaps: bool            // exchange honours its flag
    const faultless: bool        // no operation fails on its own and random names are unused
    var tree: Tree
    var bound: nat               // identities handed out so far
    var links: map<Identity, Name>  // the one name each file is linked under
    ghost var log: seq<Op>
    ghost var created: set<Identity>  // identities this process created
    ghost var seen: seq<Sight>        // every successful inspection

    /** Nobody interferes and nothing fails: what must then succeed. */
    predicate Calm() {
      faultless && !hostile
    }

    ghost predicate Valid()
      reads this
    {
      tree.WellFormed(links, bound) && forall id | id in created :: id < bound
    }

    /** Only the other process has acted since the old state. */
    twostate predicate Undisturbed()
      reads this
    {
      && Valid()
      && log == old(log) && created == old(created) && old(bound) <= bound && old(seen) <= seen
      && tree.priv == old(tree.priv)
      && (!hostile ==> tree == old(tree))
    }

    /** The old state plus exactly the one operation at the end of the log. */
    twostate predicate Did(op: Op)
      reads this
    {
      && Valid()
      && log == old(log) + [op]
      && old(created) <= created && old(bound) <= bound && seen == old(seen)
    }

    method Interfere()
      requires Valid()
      modifies this`tree, this`bound, this`links
      ensures Undisturbed() && seen == old(seen)
    {
      if hostile {
        var rewritten: map<string, Entry> := *;
        var higher: nat := *;
        var relinked: map<Identity, Name> := *;
        var candidate := tree.(pub := rewritten);
        if bound <= higher && candidate.WellFormed(relinked, higher) {
          tree, bound, links := candidate, higher, relinked;
        }
      }
    }

    method Lstat(n: Name) returns (entry: Entry, err: Err)
      requires Valid()
      modifies this`tree, this`bound, this`links, this`seen
      ensures Undisturbed()
      ensures err in {{}, {NotExist}, {IO}}
      ensures err == {} ==> tree.Get(n) == Some(entry) && seen == old(seen) + [Sight(n, entry, |log|)]
      ensures NotExist in err ==> tree.Get(n).None?
      ensures faultless ==> IO !in err
    {
      Interfere();
      entry := Entry(0, false, 0);
      var fails: bool := *;
      if fails && !faultless {
        return entry, {IO};
      }
      match tree.Get(n)
      case None => return entry, {NotExist};
      case Some(e) =>
        seen := seen + [Sight(n, e, |log|)];
        return e, {};
    }

    /** fstat on an open descriptor of the file id. */
    method Fstat(id: Identity) returns (entry: Entry, err: Err)
      requires Valid()
      modifies this`tree, this`bound, this`links
      ensures Undisturbed()
      ensures err in {{}, {IO}}
      ensures err == {} ==> entry.id == id && entry.regular
      ensures err == {} ==>
        forall n | tree.Get(n).Some? && tree.Get(n).value.id == id :: entry.size == tree.Get(n).value.size
      ensures faultless ==> err == {}
    {
      Interfere();
      var size: nat := *;
      if s :| s in tree.pub && tree.pub[s].id == id {
        size := tree.pub[s].size;
      } else if t :| t in tree.priv && tree.priv[t].id == id {
        size := tree.priv[t].size;
      }
      entry := Entry(id, true, size);
      var fails: bool := *;
      if fails && !faultless {
        return entry, {IO};
      }
      return entry, {};
    }

    /** Opens an entry for reading; the descriptor keeps the file's identity. */
    method OpenEntry(n: Name) returns (id: Identity, err: Err)
      requires Valid()
      modifies this`tree, this`bound, this`links, this`seen
      ensures Undisturbed()
      ensures err in {{}, {NotExist}, {IO}}
      ensures err == {} ==> tree.Get(n).Some? && tree.Get(n).value.id == id
      ensures NotExist in err ==> tree.Get(n).None?
      ensures faultless ==> IO !in err
    {
      var entry;
      entry, err := Lstat(n);
      id := entry.id;
    }

    method CreateExclusive(n: Name) returns (id: Identity, err: Err)
      requires Valid()
      modifies this
      ensures err in {{}, {Exist}, {IO}}
      ensures err != {} ==> Undisturbed()
      ensures Exist in err ==> tree.Get(n).Some?
      ensures faultless ==> IO !in err
      ensures err == {} ==>
        var e := Entry(id, true, 0);
        && Did(Created(n, e)) && created == old(created) + {id} && id !in old(created)
        && old(bound) <= id
        && (n.Private? ==> old(tree).Get(n).None?)
        && tree.priv == (if n.Private? then old(tree.priv)[n.token := e] else old(tree.priv))
        && (!hostile ==> old(tree).Get(n).None? && tree == old(tree).Put(n, e))
        && tree.Get(n) == Some(e)
    {
      Interfere();
      id := bound;
      if tree.Get(n).Some? {
        return id, {Exist};
      }
      var fails: bool := *;
      if fails && !faultless {
        return id, {IO};
      }
      var e := Entry(id, true, 0);
      PuttingUnlinkedKeepsWellFormed(tree, n, e, links, bound + 1);
      tree, links := tree.Put(n, e), links[id := n];
      bound := bound + 1;
      log := log + [Created(n, e)];
      created := created + {id};
      return id, {};
    }

    /** Renames from to to. A platform that ignores the no-replace flag
        silently destroys an existing target. */
    method RenameNoReplace(from: Name, to: Name) returns (err: Err)
      requires Valid() && from != to
      modifies this
      ensures err in {{}, {Exist}, {NotExist}, {AtomicOverwriteUnsupported}, {IO}}
      ensures err != {} ==> Undisturbed()
      ensures NotExist in err ==> tree.Get(from).None?
      ensures Exist in err ==> refusesReplace && tree.Get(to).Some?
      ensures faultless ==> err in {{}, {Exist}, {NotExist}}
      ensures err == {} ==> |log| > 0
      ensures err == {} ==>
        var op := log[|log| - 1];
        && Did(op) && op.Renamed? && op.from == from && op.to == to
        && created == old(created)
        && (refusesReplace ==> op.over.None?)
        && (from.Private? ==> old(tree).Get(from) == Some(op.entry))
        && (to.Private? ==> old(tree).Get(to) == op.over)
        && tree.priv == old(tree).Drop(from).Put(to, op.entry).priv
        && tree.Get(to) == Some(op.entry)
        && (!hostile ==>
          && old(tree).Get(from) == Some(op.entry) && old(tree).Get(to) == op.over
          && tree == old(tree).Drop(from).Put(to, op.entry))
    {
      Interfere();
      var moved, over := tree.Get(from), tree.Get(to);
      if moved.None? {
        return {NotExist};
      }
      if refusesReplace && over.Some? {
        return {Exist};
      }
      var fails, unsupported: bool := *, *;
      if fails && !faultless {
        return {if unsupported then AtomicOverwriteUnsupported else IO};
      }
      MovingKeepsWellFormed(tree, from, to, links, bound);
      tree, links := tree.Drop(from).Put(to, moved.value), links[moved.value.id := to];
      log := log + [Renamed(from, to, moved.value, over)];
      return {};
    }

    /** Exchanges two existing names. A platform that ignores the exchange
        flag performs a replacing rename instead. */
    method Exchange(a: Name, b: Name) returns (err: Err)
      requires Valid() && a.Private? && a != b
      modifies this
      ensures err in {{}, {NotExist}, {AtomicOverwriteUnsupported}, {IO}}
      ensures err != {} ==> Undisturbed()
      ensures NotExist in err ==> tree.Get(a).None? || tree.Get(b).None?
      ensures faultless ==> err in {{}, {NotExist}}
      ensures err == {} ==> |log| > 0 && Did(log[|log| - 1]) && created == old(created)
      ensures err == {} && swaps ==>
        var op := log[|log| - 1];
        && op.Exchanged? && op.a == a && op.b == b
        && old(tree).Get(a) == Some(op.atA)
        && (b.Private? ==> old(tree).Get(b) == Some(op.atB))
        && tree.priv == old(tree).Put(a, op.atB).Put(b, op.atA).priv
        && (!hostile ==> old(tree).Get(b) == Some(op.atB) && tree == old(tree).Put(a, op.atB).Put(b, op.atA))
        && tree.Get(b) == Some(op.atA)
      ensures err == {} && !swaps ==>
        var op := log[|log| - 1];
        && op.Renamed? && op.from == a && op.to == b && op.over.Some?
        && old(tree).Get(a) == Some(op.entry)
        && (b.Private? ==> old(tree).Get(b) == op.over)
        && tree.priv == old(tree).Drop(a).Put(b, op.entry).priv
        && (!hostile ==> old(tree).Get(b) == op.over && tree == old(tree).Drop(a).Put(b, op.entry))
    {
      Interfere();
      var atA, atB := tree.Get(a), tree.Get(b);
      if atA.None? || atB.None? {
        return {NotExist};
      }
      var fails, unsupported: bool := *, *;
      if fails && !faultless {
        return {if unsupported then AtomicOverwriteUnsupported else IO};
      }
      if swaps {
        Swap(a, b, atA.value, atB.value);
      } else {
        MoveOver(a, b, atA.value, atB.value);
      }
      return {};
    }

    method Swap(a: Name, b: Name, atA: Entry, atB: Entry)
      requires Valid() && a.Private? && a != b && tree.Get(a) == Some(atA) && tree.Get(b) == Some(atB)
      modifies this`tree, this`links, this`log
      ensures Did(Exchanged(a, b, atA, atB)) && created == old(created)
      ensures tree == old(tree).Put(a, atB).Put(b, atA)
    {
      SwappingKeepsWellFormed(tree, a, b, links, bound);
      tree, links := tree.Put(a, atB).Put(b, atA), links[atB.id := a][atA.id := b];
      log := log + [Exchanged(a, b, atA, atB)];
    }

    method MoveOver(a: Name, b: Name, atA: Entry, atB: Entry)
      requires Valid() && a.Private? && a != b && tree.Get(a) == Some(atA) && tree.Get(b) == Some(atB)
      modifies this`tree, this`links, this`log
      ensures Did(Renamed(a, b, atA, Some(atB))) && created == old(created)
      ensures tree == old(tree).Drop(a).Put(b, atA)
    {
      MovingKeepsWellFormed(tree, a, b, links, bound);
      tree, links := tree.Drop(a).Put(b, atA), links[atA.id := b];
      log := log + [Renamed(a, b, atA, Some(atB))];
    }

    method Remove(n: Name) returns (err: Err)
      requires Valid() && n.Private?
      modifies this
      ensures err in {{}, {NotExist}, {IO}}
      ensures err != {} ==> Undisturbed()
      ensures NotExist in err ==> tree.Get(n).None?
      ensures faultless ==> IO !in err
      ensures err == {} ==>
        && old(tree).Get(n).Some?
        && Did(Removed(n, old(tree).Get(n).value)) && created == old(created)
        && tree.priv == old(tree.priv) - {n.token}
        && (!hostile ==> tree == old(tree).Drop(n))
    {
      Interfere();
      var gone := tree.Get(n);
      if gone.None? {
        return {NotExist};
      }
      var fails: bool := *;
      if fails && !faultless {
        return {IO};
      }
      tree := tree.Drop(n);
      log := log + [Removed(n, gone.value)];
      return {};
    }

    /** Appends bytes through the open part descriptor. */
    method Append(id: Identity, bytes: nat)
      requires Valid()
      modifies this`tree, this`bound, this`links
      ensures Valid() && log == old(log) && created == old(created) && old(bound) <= bound
      ensures !hostile ==> tree == Grown(old(tree), id, bytes)
      ensures tree.priv == Grown(old(tree), id, bytes).priv
    {
      Interfere();
      tree := Grown(tree, id, bytes);
    }
  }

  function Grow(e: Entry, id: Identity, bytes: nat): Entry {
    if e.id == id then e.(size := e.size + bytes) else e
  }

  /** The tree after bytes more bytes were written to the file id. */
  function Grown(t: Tree, id: Identity, bytes: nat): Tree {
    Tree(map s | s in t.pub :: Grow(t.pub[s], id, bytes), map k | k in t.priv :: Grow(t.priv[k], id, bytes))
  }
}
