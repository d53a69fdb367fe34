/** Replaying the journal over the catalog when a volume is loaded. */
module Reconciliation {
  import opened ByteStrings
  import opened Wrappers
  import opened Paths
  import opened Storage
  import opened Volumes
  import opened Changes

  datatype Entry = Entry(operation: string, path: Path)

  datatype Replay = Replay(active: set<Path>, deleted: set<Path>, snapshots: nat)

  function ReplayOne(r: Replay, e: Entry): Replay {
    if e.operation in ["create_file", "create_directory", "create_symlink", "write_file", "restore"] then
      r.(active := r.active + {e.path}, deleted := r.deleted - {e.path})
    else if e.operation == "delete" then
      r.(active := r.active - {e.path}, deleted := r.deleted + {e.path})
    else if e.operation == "secure_delete" then
      r.(active := r.active - {e.path}, deleted := r.deleted - {e.path})
    else if e.operation == "snapshot" then r.(snapshots := r.snapshots + 1)
    else r
  }

  function ReplayAll(entries: seq<Entry>): Replay {
    if entries == [] then Replay({}, {}, 0)
    else ReplayOne(ReplayAll(entries[..|entries| - 1]), entries[|entries| - 1])
  }

  /** No journal makes a path both active and deleted. */
  lemma {:induction false} ReplayDisjoint(entries: seq<Entry>)
    ensures ReplayAll(entries).active !! ReplayAll(entries).deleted
  {
    if entries == [] {
    } else {
      ReplayDisjoint(entries[..|entries| - 1]);
    }
  }

  function Only(c: Catalog, paths: set<Path>): Catalog { map p | p in c && p in paths :: c[p] }

  /** The deleted catalog after the first pass, which moves the deleted paths over. */
  function FirstPass(v: Volume, r: Replay): Catalog { v.deleted + Only(v.active, r.deleted) }

  /** The catalog after both passes. */
  function Reconciled(v: Volume, r: Replay): (w: Volume)
    ensures w == v.(active := w.active, deleted := w.deleted, recovery := w.deleted)
  {
    var trash := FirstPass(v, r);
    var kept := Only(trash, r.deleted - r.active);
    v.(active := (v.active - r.deleted) + Only(trash, r.active), deleted := kept, recovery := kept)
  }

  // ----- the two loops, by the paths done so far -----

  function AfterFirst(v: Volume, r: Replay, done: set<Path>): (w: Volume)
    ensures w.recovery == w.deleted
  {
    var trash := v.deleted + Only(v.active, done * r.deleted);
    v.(active := v.active - (done * r.deleted), deleted := trash, recovery := trash)
  }

  function AfterSecond(v: Volume, r: Replay, done: set<Path>): (w: Volume)
    ensures w.recovery == w.deleted
  {
    var kept := v.deleted - (done - (r.deleted - r.active));
    v.(active := v.active + Only(v.deleted, done * r.active), deleted := kept, recovery := kept)
  }

  lemma FirstEmpty(v: Volume, r: Replay)
    requires v.recovery == v.deleted
    ensures AfterFirst(v, r, {}) == v
  {
    assert v.deleted + Only(v.active, {} * r.deleted) == v.deleted;
    assert v.active - ({} * r.deleted) == v.active;
  }

  lemma SecondEmpty(v: Volume, r: Replay)
    requires v.recovery == v.deleted
    ensures AfterSecond(v, r, {}) == v
  {
    assert v.active + Only(v.deleted, {} * r.active) == v.active;
    assert v.deleted - ({} - (r.deleted - r.active)) == v.deleted;
  }

  lemma FirstStep(v: Volume, r: Replay, done: set<Path>, p: Path)
    requires p in v.active && p !in done
    ensures var w := AfterFirst(v, r, done);
            && p in w.active && w.active[p] == v.active[p]
            && AfterFirst(v, r, done + {p}) ==
                 if p !in r.deleted then w
                 else w.(active := w.active - {p}, deleted := w.deleted[p := v.active[p]],
                         recovery := w.deleted[p := v.active[p]])
  {
    if p in r.deleted {
      assert (done + {p}) * r.deleted == done * r.deleted + {p};
      assert v.active - (done * r.deleted + {p}) == (v.active - (done * r.deleted)) - {p};
      assert Only(v.active, done * r.deleted + {p}) == Only(v.active, done * r.deleted)[p := v.active[p]];
    } else {
      assert (done + {p}) * r.deleted == done * r.deleted;
    }
  }

  lemma SecondStep(v: Volume, r: Replay, done: set<Path>, p: Path)
    requires p in v.deleted && p !in done
    ensures var w := AfterSecond(v, r, done);
            && p in w.deleted && w.deleted[p] == v.deleted[p]
            && AfterSecond(v, r, done + {p}) ==
                 if p in r.active then
                   w.(active := w.active[p := v.deleted[p]], deleted := w.deleted - {p}, recovery := w.deleted - {p})
                 else if p !in r.deleted then w.(deleted := w.deleted - {p}, recovery := w.deleted - {p})
                 else w
  {
    SecondDeleted(v.deleted, r.deleted - r.active, done, p);
    SecondActive(v.deleted, r.active, done, p);
  }

  lemma SecondDeleted(deleted: Catalog, keep: set<Path>, done: set<Path>, p: Path)
    requires p in deleted && p !in done
    ensures p in deleted - (done - keep)
    ensures deleted - (done + {p} - keep)
      == if p in keep then deleted - (done - keep) else deleted - (done - keep) - {p}
  {
    if p in keep {
      assert done + {p} - keep == done - keep;
    } else {
      assert done + {p} - keep == (done - keep) + {p};
    }
  }

  lemma SecondActive(deleted: Catalog, active: set<Path>, done: set<Path>, p: Path)
    requires p in deleted && p !in done
    ensures Only(deleted, (done + {p}) * active)
      == if p in active then Only(deleted, done * active)[p := deleted[p]] else Only(deleted, done * active)
  {
    if p in active {
      assert (done + {p}) * active == done * active + {p};
    } else {
      assert (done + {p}) * active == done * active;
    }
  }

  /** The loops over all active and then over all deleted paths compute the reconciled catalog. */
  lemma BothPasses(v: Volume, r: Replay)
    ensures var w := AfterFirst(v, r, v.active.Keys);
            AfterSecond(w, r, w.deleted.Keys) == Reconciled(v, r)
  {
    var w := AfterFirst(v, r, v.active.Keys);
    assert w.deleted == FirstPass(v, r) by {
      assert Only(v.active, v.active.Keys * r.deleted) == Only(v.active, r.deleted);
    }
    assert w.active == v.active - r.deleted;
    assert Only(w.deleted, w.deleted.Keys * r.active) == Only(w.deleted, r.active);
    assert w.deleted - (w.deleted.Keys - (r.deleted - r.active)) == Only(w.deleted, r.deleted - r.active);
  }

  /** With no path both active and deleted, the two passes amount to one assignment of paths:
      a path is active if it was and is not journalled as deleted, or was deleted and is journalled
      as active; it is deleted if it existed at all and is journalled as deleted. */
  lemma ReconciledPaths(v: Volume, r: Replay)
    requires v.active.Keys !! v.deleted.Keys && r.active !! r.deleted
    ensures Reconciled(v, r).active.Keys == (v.active.Keys - r.deleted) + (v.deleted.Keys * r.active)
    ensures Reconciled(v, r).deleted.Keys == (v.deleted.Keys + v.active.Keys) * r.deleted
    ensures forall p :: p in Reconciled(v, r).active ==>
              Reconciled(v, r).active[p] == if p in v.active then v.active[p] else v.deleted[p]
    ensures forall p :: p in Reconciled(v, r).deleted ==>
              Reconciled(v, r).deleted[p] == if p in v.active then v.active[p] else v.deleted[p]
  {
  }

  /** The entry a path has before the second pass, wherever it is. */
  function Latest(v: Volume, r: Replay, p: Path): Option<Inode> {
    if p in v.active && (p in r.deleted || p !in v.deleted) then Some(v.active[p])
    else if p in v.deleted then Some(v.deleted[p])
    else None
  }

  /** The first pass or an earlier delete left a recoverable entry at the path. */
  predicate InTrash(v: Volume, r: Replay, p: Path) { p in v.deleted || (p in v.active && p in r.deleted) }

  lemma ReconciledAt(v: Volume, r: Replay, p: Path)
    ensures var w := Reconciled(v, r);
            && (p in w.active <==> (p in v.active && p !in r.deleted) || (InTrash(v, r, p) && p in r.active))
            && (p in w.active && InTrash(v, r, p) && p in r.active ==> Some(w.active[p]) == Latest(v, r, p))
            && (p in w.active && !(InTrash(v, r, p) && p in r.active) ==> w.active[p] == v.active[p])
            && (p in w.deleted <==> InTrash(v, r, p) && p in r.deleted && p !in r.active)
            && (p in w.deleted ==> Some(w.deleted[p]) == Latest(v, r, p))
  {
  }

  lemma ReconciledTwice(v: Volume, r: Replay)
    ensures Reconciled(Reconciled(v, r), r) == Reconciled(v, r)
  {
    hide Reconciled;
    var w := Reconciled(v, r);
    var x := Reconciled(w, r);
    forall p
      ensures (p in x.active <==> p in w.active) && (p in w.active ==> x.active[p] == w.active[p])
      ensures (p in x.deleted <==> p in w.deleted) && (p in w.deleted ==> x.deleted[p] == w.deleted[p])
    {
      ReconciledAt(v, r, p);
      ReconciledAt(w, r, p);
    }
    assert x.active == w.active && x.deleted == w.deleted;
  }

  /** No block is touched, so every entry that is left reads as before. */
  lemma ReconciledFaithful(cfg: Config, v: Volume, r: Replay)
    requires Faithful(cfg, v)
    ensures Faithful(cfg, Reconciled(v, r))
  {
    hide Stored;
    var w := Reconciled(v, r);
    forall p | p in w.active ensures Stored(cfg, w.blocks, w.active[p]) { ReconciledAt(v, r, p); }
    forall p | p in w.deleted ensures Stored(cfg, w.blocks, w.deleted[p]) { ReconciledAt(v, r, p); }
  }

  /** The inode is marked dirty, or the last checkpoint has its block as it is. */
  ghost predicate SavedAs(saved: map<nat, Bytes>, v: Volume, n: Inode) {
    n.id in v.dirty
    || ((n.id in saved <==> n.id in v.blocks) && (n.id in v.blocks ==> saved[n.id] == v.blocks[n.id]))
  }

  /** Entries come back without being marked dirty, so the checkpoint covers the result exactly when it
      covers those that came back. */
  lemma ReconciledCovers(saved: map<nat, Bytes>, v: Volume, r: Replay)
    requires Covers(saved, v)
    ensures Covers(saved, Reconciled(v, r)) <==> RevivedSaved(saved, v, r)
  {
    var w := Reconciled(v, r);
    forall p | p in w.active
      ensures SavedAs(saved, w, w.active[p]) <==> SavedAs(saved, v, w.active[p])
      ensures (p in v.active && w.active[p] == v.active[p]) || (p in v.deleted && w.active[p] == v.deleted[p])
      ensures p in v.active && w.active[p] == v.active[p] ==> SavedAs(saved, v, w.active[p])
    {
      ReconciledAt(v, r, p);
    }
    hide Reconciled;
    assert Covers(saved, w) <==> forall p :: p in w.active ==> SavedAs(saved, w, w.active[p]);
  }

  /** All that reconciliation keeps. */
  lemma ReconciledKeeps(cfg: Config, saved: map<nat, Bytes>, v: Volume, r: Replay)
    requires Sound(v)
    ensures v.recovery == v.deleted && Sound(Reconciled(v, r))
    ensures Faithful(cfg, v) ==> Faithful(cfg, Reconciled(v, r))
    ensures Covers(saved, v) ==> (Covers(saved, Reconciled(v, r)) <==> RevivedSaved(saved, v, r))
  {
    hide Faithful, Covers, RevivedSaved, Reconciled;
    ReconciledSound(v, r);
    if Faithful(cfg, v) { ReconciledFaithful(cfg, v, r); }
    if Covers(saved, v) { ReconciledCovers(saved, v, r); }
  }

  ghost predicate RevivedSaved(saved: map<nat, Bytes>, v: Volume, r: Replay) {
    var w := Reconciled(v, r);
    forall p :: p in w.active && p in v.deleted && w.active[p] == v.deleted[p] ==> SavedAs(saved, v, w.active[p])
  }

  /** Every entry of the result is one of the old entries, each of them at most once. */
  lemma ReconciledSound(v: Volume, r: Replay)
    requires Sound(v)
    ensures Sound(Reconciled(v, r))
  {
    var w := Reconciled(v, r);
    assert Drawn(v, FirstPass(v, r));
    assert Drawn(v, w.active) && Drawn(v, w.deleted) && w.active.Keys !! w.deleted.Keys;
    DrawnSound(v, w);
  }

  // ----- reconciling with the volume's own journal -----

  /** The journal has the path active while it is deleted, or deleted while it is active. */
  predicate Contradicted(v: Volume, r: Replay, p: Path) {
    (p in v.active && p in r.deleted) || (p in v.deleted && p in r.active)
  }

  ghost predicate ActiveKept(v: Volume, w: Volume, p: Path) {
    (p in w.active <==> p in v.active) && (p in v.active ==> w.active[p] == v.active[p])
  }

  lemma KeptAt(v: Volume, r: Replay, p: Path)
    requires Sound(v) && r.active !! r.deleted
    ensures ActiveKept(v, Reconciled(v, r), p) <==> !Contradicted(v, r, p)
    ensures !Contradicted(v, r, p) ==>
              var w := Reconciled(v, r);
              && (p in w.deleted <==> p in v.deleted && p in r.deleted)
              && (p in w.deleted ==> w.deleted[p] == v.deleted[p])
  {
    ReconciledAt(v, r, p);
    assert p in v.active && p in v.deleted ==> v.active[p].id != v.deleted[p].id;
    hide Sound, Reconciled;
  }

  /** Reconciliation leaves the active catalog alone exactly when the journal contradicts it nowhere: no
      active path is journalled as deleted last, and no deleted one as active. It leaves the deleted one
      alone as well exactly when all of it is journalled as deleted. */
  lemma ReconciledSame(v: Volume, r: Replay)
    requires Sound(v) && r.active !! r.deleted
    ensures Reconciled(v, r).active == v.active <==> forall p :: !Contradicted(v, r, p)
    ensures Reconciled(v, r) == v <==> (forall p :: !Contradicted(v, r, p)) && v.deleted.Keys <= r.deleted
  {
    var w := Reconciled(v, r);
    assert v.recovery == v.deleted;
    hide Sound, Reconciled, Contradicted, ActiveKept;
    forall p ensures ActiveKept(v, w, p) <==> !Contradicted(v, r, p) { KeptAt(v, r, p); }
    SameCatalog(v, w);
    if forall p :: !Contradicted(v, r, p) {
      forall p
        ensures p in w.deleted <==> p in v.deleted && p in r.deleted
        ensures p in w.deleted ==> w.deleted[p] == v.deleted[p]
      {
        KeptAt(v, r, p);
      }
      assert w.deleted == v.deleted <==> v.deleted.Keys <= r.deleted;
    }
  }

  lemma SameCatalog(v: Volume, w: Volume)
    ensures w.active == v.active <==> forall p :: ActiveKept(v, w, p)
  {
    if forall p :: ActiveKept(v, w, p) {
      forall p ensures (p in w.active <==> p in v.active) && (p in v.active ==> w.active[p] == v.active[p]) {
        assert ActiveKept(v, w, p);
      }
    }
  }

  /** What an operation does to the active and the deleted paths of a volume, by the entry it journals. */
  ghost predicate Journalled(v: Volume, w: Volume, e: Entry) {
    var a, d := v.active.Keys, v.deleted.Keys;
    if e.operation in ["create_file", "create_directory", "create_symlink", "write_file"] then
      w.active.Keys == a + {e.path} && w.deleted.Keys == d
    else if e.operation == "delete" then w.active.Keys == a - {e.path} && w.deleted.Keys == d + {e.path}
    else if e.operation == "secure_delete" then w.active.Keys == a - {e.path} && w.deleted.Keys == d - {e.path}
    else if e.operation == "restore" then w.active.Keys == a + {e.path} && w.deleted.Keys == d - {e.path}
    else if e.operation == "expunge" then w.active.Keys == a && w.deleted.Keys == d - {e.path}
    else w.active.Keys == a && w.deleted.Keys == d
  }

  /** The journal accounts for the volume: it knows the active paths, and every deleted path as deleted
      or as active. */
  ghost predicate Accounts(v: Volume, r: Replay) {
    v.active.Keys == r.active && v.deleted.Keys <= r.active + r.deleted
  }

  /** Every operation but a rename and a clone, which journal nothing a replay looks at, keeps the
      account. */
  lemma AccountKept(v: Volume, w: Volume, r: Replay, e: Entry)
    requires Accounts(v, r) && Journalled(v, w, e)
    ensures Accounts(w, ReplayOne(r, e))
  {
  }

  /** A run: the entry of each operation, and the volumes between them. */
  ghost predicate JournalledRun(volumes: seq<Volume>, entries: seq<Entry>) {
    && |volumes| == |entries| + 1
    && forall i :: 0 <= i < |entries| ==> Journalled(volumes[i], volumes[i + 1], entries[i])
  }

  lemma {:induction false} RunAccounts(volumes: seq<Volume>, entries: seq<Entry>)
    requires JournalledRun(volumes, entries) && Accounts(volumes[0], Replay({}, {}, 0))
    ensures Accounts(volumes[|entries|], ReplayAll(entries))
  {
    hide Journalled, Accounts;
    if entries == [] {
    } else {
      var n := |entries| - 1;
      RunAccounts(volumes[..n + 1], entries[..n]);
      AccountKept(volumes[n], volumes[n + 1], ReplayAll(entries[..n]), entries[n]);
    }
  }

  /** So after a run without renames and clones, reloading the volume with its own journal leaves the
      active catalog as it is exactly when no path is both active and deleted: where a file has been made
      again at the path of a deleted one, the deleted one comes back in its place. */
  lemma OwnJournal(volumes: seq<Volume>, entries: seq<Entry>)
    requires JournalledRun(volumes, entries) && Accounts(volumes[0], Replay({}, {}, 0)) && Sound(volumes[|entries|])
    ensures var v := volumes[|entries|]; var w := Reconciled(v, ReplayAll(entries));
            && (w.active == v.active <==> v.active.Keys !! v.deleted.Keys)
            && forall p :: p in v.active && p in v.deleted ==> p in w.active && w.active[p] == v.deleted[p]
  {
    RunAccounts(volumes, entries);
    ReplayDisjoint(entries);
    hide JournalledRun, Sound, Reconciled, ReplayAll, Accounts;
    AccountReloaded(volumes[|entries|], ReplayAll(entries));
  }

  lemma AccountReloaded(v: Volume, r: Replay)
    requires Sound(v) && Accounts(v, r) && r.active !! r.deleted
    ensures var w := Reconciled(v, r);
            && (w.active == v.active <==> v.active.Keys !! v.deleted.Keys)
            && forall p :: p in v.active && p in v.deleted ==> p in w.active && w.active[p] == v.deleted[p]
  {
    ReconciledSame(v, r);
    BothContradicted(v, r);
    hide Sound, Reconciled, Accounts, Contradicted;
    forall p | p in v.active && p in v.deleted
      ensures p in Reconciled(v, r).active && Reconciled(v, r).active[p] == v.deleted[p]
    {
      BackInPlace(v, r, p);
    }
  }

  lemma BothContradicted(v: Volume, r: Replay)
    requires Accounts(v, r) && r.active !! r.deleted
    ensures v.active.Keys !! v.deleted.Keys <==> forall p :: !Contradicted(v, r, p)
  {
    forall p ensures Contradicted(v, r, p) <==> p in v.active.Keys && p in v.deleted.Keys {}
  }

  lemma BackInPlace(v: Volume, r: Replay, p: Path)
    requires Accounts(v, r) && p in v.active && p in v.deleted && r.active !! r.deleted
    ensures p in Reconciled(v, r).active && Reconciled(v, r).active[p] == v.deleted[p]
  {
    ReconciledAt(v, r, p);
    assert p in r.active && p !in r.deleted;
    hide Reconciled;
  }

  /** What the operations of the service journal. */
  lemma OperationsJournalled(cfg: Config, saved: map<nat, Bytes>, v: Volume, w: Volume, p: Path, node: Node)
    ensures Updated(cfg, saved, v, w, p, node) ==> Journalled(v, w, Entry("create_file", p))
    ensures p in v.active ==> Journalled(v, Trashed(v, p), Entry("delete", p))
    ensures p in v.active ==> Journalled(v, Erased(v, p), Entry("secure_delete", p))
    ensures p in v.deleted ==> Journalled(v, Revived(v, p), Entry("restore", p))
    ensures p in v.deleted ==> Journalled(v, Expunged(v, p), Entry("expunge", p))
  {
    hide Faithful, Covers, Tree, Trash;
  }

  /** After a rename of `/a` over `/b`, whose journal has `/b` deleted last, reloading moves the renamed
      entry into the deleted catalog, where it replaces the one it was renamed over. */
  lemma RenamedOverReloaded(v: Volume, a: Inode, b: Inode)
    requires v.active == map["/b" := a.(path := "/b")] && v.deleted == map["/b" := b]
    ensures var entries := [Entry("create_file", "/a"), Entry("create_file", "/b"), Entry("delete", "/b"),
                            Entry("rename", "/a")];
            var w := Reconciled(v, ReplayAll(entries));
            w.active == map[] && w.deleted == map["/b" := a.(path := "/b")]
  {
    var entries := [Entry("create_file", "/a"), Entry("create_file", "/b"), Entry("delete", "/b"),
                    Entry("rename", "/a")];
    assert entries[..3] == [entries[0], entries[1], entries[2]];
    assert entries[..3][..2] == [entries[0], entries[1]];
    assert entries[..3][..2][..1] == [entries[0]];
    assert ReplayAll([]) == Replay({}, {}, 0);
    assert ReplayAll([entries[0]]) == Replay({"/a"}, {}, 0);
    assert ReplayAll([entries[0], entries[1]]) == Replay({"/a", "/b"}, {}, 0);
    assert ReplayAll(entries[..3]) == Replay({"/a"}, {"/b"}, 0);
    assert ReplayAll(entries) == Replay({"/a"}, {"/b"}, 0);
  }
}
