/** How the operations change a volume, as relations between the volume before and after. */
module Changes {
  import opened ByteStrings
  import opened Wrappers
  import opened Storage
  import opened Paths
  import opened Volumes

  /** The operation gave `path` the node `node` and touched no other entry, and if all entries
      were readable they still are. */
  ghost predicate Assigned(cfg: Config, v: Volume, w: Volume, path: Path, node: Node) {
    && path in w.active && w.active == v.active[path := w.active[path]]
    && w.deleted == v.deleted
    && Tree(cfg, w) == Tree(cfg, v)[path := node]
    && Trash(cfg, w) == Trash(cfg, v)
    && (Faithful(cfg, v) ==> Faithful(cfg, w))
  }

  /** And the dirty set still says what the last checkpoint misses. */
  ghost predicate Updated(cfg: Config, saved: map<nat, Bytes>, v: Volume, w: Volume, path: Path, node: Node) {
    Assigned(cfg, v, w, path, node) && (Covers(saved, v) ==> Covers(saved, w))
  }

  /** Nothing but the allocator may have moved. */
  predicate SameEntries(v: Volume, w: Volume) {
    w.(nextInode := v.nextInode, recycled := v.recycled) == v
  }

  /** The id may carry the entry `path`: it is the entry's own or nobody's. */
  ghost predicate Free(v: Volume, path: Path, id: nat) {
    (path in v.active && v.active[path].id == id) || Unused(v, id)
  }

  ghost predicate SameBlocksBut(a: map<nat, Bytes>, b: map<nat, Bytes>, id: nat) {
    forall k :: k != id ==> (k in a <==> k in b) && (k in a ==> a[k] == b[k])
  }

  /** At most the block of one inode has been stored anew. */
  ghost predicate OneBlock(a: map<nat, Bytes>, b: map<nat, Bytes>, id: nat) {
    a == b || (id in b && b == a[id := b[id]])
  }

  /** Moving the allocator first does not count as a change. */
  lemma AllocationAside(cfg: Config, saved: map<nat, Bytes>, u: Volume, v: Volume, w: Volume, path: Path, node: Node)
    requires SameEntries(u, v) && Updated(cfg, saved, v, w, path, node)
    ensures Updated(cfg, saved, u, w, path, node)
  {
    assert Tree(cfg, u) == Tree(cfg, v) && Trash(cfg, u) == Trash(cfg, v);
  }

  lemma AllocationKeeps(cfg: Config, saved: map<nat, Bytes>, v: Volume, w: Volume)
    requires SameEntries(v, w)
    ensures Faithful(cfg, v) ==> Faithful(cfg, w)
    ensures Covers(saved, v) ==> Covers(saved, w)
  {
  }

  lemma SameEntriesShow(cfg: Config, v: Volume, w: Volume)
    requires SameEntries(v, w)
    ensures Tree(cfg, w) == Tree(cfg, v) && (Faithful(cfg, v) ==> Faithful(cfg, w))
  {
  }

  lemma TreeAt(cfg: Config, v: Volume, path: Path)
    requires path in v.active
    ensures path in Tree(cfg, v) && Tree(cfg, v)[path] == NodeOf(cfg, v.blocks, v.active[path])
  {
  }

  lemma NoQuota(cfg: Config, v: Volume)
    ensures Unlimited(cfg) ==> forall files, bytes :: QuotaOk(cfg, v, files, bytes)
  {
  }

  lemma ReadableEntry(cfg: Config, v: Volume, path: Path)
    requires path in v.active
    ensures Faithful(cfg, v) && v.active[path].kind != Directory ==>
              ReadFile(cfg, v, path).Ok? && |ReadFile(cfg, v, path).value| == v.active[path].size
    ensures v.active[path].kind != Directory && ReadFile(cfg, v, path).Ok? ==> v.active[path].id in v.blocks
  {
    assert Faithful(cfg, v) ==> Stored(cfg, v.blocks, v.active[path]);
  }

  lemma ViewPut(cfg: Config, a: map<nat, Bytes>, b: map<nat, Bytes>, c: Catalog, n: Inode)
    requires SameBlocksBut(a, b, n.id)
    requires forall p :: p in c && p != n.path ==> c[p].id != n.id
    ensures View(cfg, b, c[n.path := n]) == View(cfg, a, c)[n.path := NodeOf(cfg, b, n)]
  {
  }

  lemma ViewFrame(cfg: Config, a: map<nat, Bytes>, b: map<nat, Bytes>, c: Catalog, id: nat)
    requires SameBlocksBut(a, b, id) && Lacks(c, id)
    ensures View(cfg, b, c) == View(cfg, a, c)
  {
    forall p | p in c ensures NodeOf(cfg, a, c[p]) == NodeOf(cfg, b, c[p]) {}
  }

  lemma StoredFrame(cfg: Config, a: map<nat, Bytes>, b: map<nat, Bytes>, c: Catalog, id: nat)
    requires SameBlocksBut(a, b, id) && Lacks(c, id) && AllStored(cfg, a, c)
    ensures AllStored(cfg, b, c)
  {
    forall p | p in c ensures Stored(cfg, b, c[p]) { assert Stored(cfg, a, c[p]); }
  }

  /** Putting one entry, with or without a new block, changes that entry only. */
  lemma PutAssigns(cfg: Config, v: Volume, w: Volume, n: Inode)
    requires Sound(v) && Free(v, n.path, n.id)
    requires w.active == v.active[n.path := n] && w.deleted == v.deleted && w.recovery == v.recovery
    requires SameBlocksBut(v.blocks, w.blocks, n.id)
    requires Faithful(cfg, v) ==> Stored(cfg, w.blocks, n)
    ensures Assigned(cfg, v, w, n.path, NodeOf(cfg, w.blocks, n))
  {
    ViewPut(cfg, v.blocks, w.blocks, v.active, n);
    ViewFrame(cfg, v.blocks, w.blocks, v.deleted, n.id);
    if Faithful(cfg, v) {
      StoredFrame(cfg, v.blocks, w.blocks, v.deleted, n.id);
      forall p | p in w.active ensures Stored(cfg, w.blocks, w.active[p]) {
        if p != n.path { assert Stored(cfg, v.blocks, v.active[p]); }
      }
    }
  }

  lemma PutUpdates(cfg: Config, saved: map<nat, Bytes>, v: Volume, w: Volume, n: Inode)
    requires Sound(v) && Free(v, n.path, n.id)
    requires w.active == v.active[n.path := n] && w.deleted == v.deleted && w.recovery == v.recovery
    requires SameBlocksBut(v.blocks, w.blocks, n.id)
    requires v.dirty <= w.dirty
    requires n.id in w.dirty || (w.blocks == v.blocks && n.path in v.active && v.active[n.path].id == n.id)
    requires Faithful(cfg, v) ==> Stored(cfg, w.blocks, n)
    ensures Updated(cfg, saved, v, w, n.path, NodeOf(cfg, w.blocks, n))
  {
    PutAssigns(cfg, v, w, n);
  }

  /** An entry that appears without being marked dirty is covered by luck only: when its id was
      dirty already or the last checkpoint has the very same bytes under it. */
  lemma UnmarkedPut(saved: map<nat, Bytes>, v: Volume, w: Volume, n: Inode)
    requires Sound(v) && Unused(v, n.id) && n.id in w.blocks
    requires w.active == v.active[n.path := n] && w.dirty == v.dirty && n.path !in v.active
    requires SameBlocksBut(v.blocks, w.blocks, n.id) && Covers(saved, v)
    ensures Covers(saved, w) <==>
              n.id in v.dirty || (n.id in saved && saved[n.id] == w.blocks[n.id])
  {
    assert w.active[n.path] == n;
  }

  /** An entry put under an id another entry carries, or under no id at all, leaves ids that do not identify. */
  lemma TakenIdSpoils(v: Volume, w: Volume, n: Inode)
    requires Sound(v) && n.path !in v.active && (n.id == 0 || !Unused(v, n.id))
    requires w.active == v.active[n.path := n] && w.deleted == v.deleted
    ensures !Sound(w)
  {
    assert w.active[n.path].id == n.id;
    if p :| p in v.active && v.active[p].id == n.id { assert w.active[p].id == n.id; }
  }

  /** Putting an entry under a free id keeps ids identifying. */
  lemma PutSound(v: Volume, w: Volume, n: Inode)
    requires Sound(v) && Free(v, n.path, n.id)
    requires w.active == v.active[n.path := n] && w.deleted == v.deleted && w.recovery == v.recovery
    requires w.nextInode == v.nextInode && w.recycled == v.recycled
    requires 0 < n.id <= v.nextInode && n.id !in v.recycled
    ensures Sound(w)
  {
    forall i | 0 <= i < |v.recycled| ensures Unused(w, v.recycled[i]) {
      assert Unused(v, v.recycled[i]);
      assert v.recycled[i] in v.recycled;
    }
  }

  /** Only owner, group, permissions and times of the entry may have changed. */
  ghost predicate Attributed(v: Volume, w: Volume, path: Path) {
    && path in v.active && path in w.active
    && w == v.(active := v.active[path := w.active[path]])
    && var n, m := v.active[path], w.active[path];
    && m == n.(stamps := m.stamps, meta := n.meta.(attributes := m.meta.attributes))
    && m.meta.attributes.tags == n.meta.attributes.tags && m.stamps == n.stamps.(changed := m.stamps.changed)
  }

  /** That is invisible in the tree, and no block has to be saved for it. */
  lemma AttributedKeeps(cfg: Config, saved: map<nat, Bytes>, v: Volume, w: Volume, path: Path)
    requires Sound(v) && Attributed(v, w, path)
    ensures Sound(w) && Updated(cfg, saved, v, w, path, NodeOf(cfg, v.blocks, v.active[path]))
  {
    var n := w.active[path];
    assert Faithful(cfg, v) ==> Stored(cfg, v.blocks, v.active[path]);
    hide Faithful, Covers;
    IdInUse(v, path);
    hide Sound;
    PutSound(v, w, n);
    PutUpdates(cfg, saved, v, w, n);
  }

  lemma IdInUse(v: Volume, path: Path)
    requires Sound(v) && path in v.active
    ensures v.active[path].path == path && 0 < v.active[path].id <= v.nextInode && v.active[path].id !in v.recycled
  {
    forall i | 0 <= i < |v.recycled| ensures v.recycled[i] != v.active[path].id { assert Unused(v, v.recycled[i]); }
  }

  lemma UpdatedTwice(cfg: Config, saved: map<nat, Bytes>, u: Volume, v: Volume, w: Volume, path: Path, a: Node, b: Node)
    requires Updated(cfg, saved, u, v, path, a) && Updated(cfg, saved, v, w, path, b)
    ensures Updated(cfg, saved, u, w, path, b)
  {
    hide Faithful, Covers, Tree, Trash;
  }

  lemma UpdatedNode(cfg: Config, saved: map<nat, Bytes>, v: Volume, w: Volume, path: Path, node: Node)
    requires Updated(cfg, saved, v, w, path, node)
    ensures path in w.active && node == NodeOf(cfg, w.blocks, w.active[path])
  {
    hide Covers, Faithful;
    assert Tree(cfg, w)[path] == node;
  }

  /** The id of the next `allocate` call and the allocator after it. */
  function NextId(v: Volume): nat { if v.recycled != [] then v.recycled[0] else v.nextInode + 1 }

  function Allocated(v: Volume): Volume {
    if v.recycled != [] then v.(recycled := v.recycled[1..]) else v.(nextInode := v.nextInode + 1)
  }

  lemma AllocatedFresh(v: Volume)
    requires Sound(v)
    ensures Sound(Allocated(v)) && SameEntries(v, Allocated(v))
    ensures Unused(Allocated(v), NextId(v)) && NextId(v) !in Allocated(v).recycled
    ensures 0 < NextId(v) <= Allocated(v).nextInode
  {
    var w, id := Allocated(v), NextId(v);
    if v.recycled != [] {
      assert Unused(v, v.recycled[0]) && Unused(w, id);
      hide Keyed, DistinctIds, Lacks;
      forall i | 0 <= i < |w.recycled| ensures w.recycled[i] != id && Unused(w, w.recycled[i]) {
        assert w.recycled[i] == v.recycled[i + 1] && Unused(v, v.recycled[i + 1]);
      }
    } else {
      hide Keyed, DistinctIds;
    }
  }

  /** Taking a specific free id out of the allocator. */
  function Without(s: seq<nat>, x: nat): (r: seq<nat>)
    ensures forall y :: y in r ==> y in s
  {
    if s == [] then [] else if s[0] == x then s[1..] else [s[0]] + Without(s[1..], x)
  }

  lemma {:induction false} WithoutNothing(s: seq<nat>, x: nat)
    requires x !in s
    ensures Without(s, x) == s
  {
    if s == [] {
    } else {
      WithoutNothing(s[1..], x);
    }
  }

  lemma {:induction false} WithoutDistinct(s: seq<nat>, x: nat)
    requires forall i, j :: 0 <= i < j < |s| ==> s[i] != s[j]
    ensures x !in Without(s, x)
    ensures forall i, j :: 0 <= i < j < |Without(s, x)| ==> Without(s, x)[i] != Without(s, x)[j]
  {
    if s == [] || s[0] == x {
    } else {
      WithoutDistinct(s[1..], x);
      var r := Without(s[1..], x);
      forall j | 0 <= j < |r| ensures r[j] != s[0] { assert r[j] in s[1..]; }
    }
  }

  function Claimed(v: Volume, id: nat): Volume {
    v.(recycled := Without(v.recycled, id), nextInode := Max(v.nextInode, id))
  }

  /** Claiming the id just allocated changes nothing more. */
  lemma ClaimedAllocated(v: Volume)
    requires Sound(v)
    ensures Claimed(Allocated(v), NextId(v)) == Allocated(v)
  {
    AllocatedFresh(v);
    WithoutNothing(Allocated(v).recycled, NextId(v));
  }

  /** Everything the allocator knows. */
  predicate SameAllocator(v: Volume, w: Volume) { v.nextInode == w.nextInode && v.recycled == w.recycled }

  lemma ClaimedFresh(v: Volume, id: nat)
    requires Sound(v)
    ensures Sound(Claimed(v, id)) && SameEntries(v, Claimed(v, id)) && (Unused(Claimed(v, id), id) <==> Unused(v, id))
    ensures id !in Claimed(v, id).recycled && id <= Claimed(v, id).nextInode
  {
    WithoutDistinct(v.recycled, id);
    var w := Claimed(v, id);
    forall i | 0 <= i < |w.recycled|
      ensures 0 < w.recycled[i] <= w.nextInode && Unused(w, w.recycled[i])
    {
      assert w.recycled[i] in v.recycled;
      var k :| 0 <= k < |v.recycled| && v.recycled[k] == w.recycled[i];
      assert Unused(v, v.recycled[k]);
    }
  }

  // ----- deleting and bringing back -----

  /** All entries of `c` are entries of the volume, at the same paths. */
  ghost predicate Drawn(v: Volume, c: Catalog) {
    forall p :: p in c ==> (p in v.active && c[p] == v.active[p]) || (p in v.deleted && c[p] == v.deleted[p])
  }

  /** Distributing entries anew over the two catalogs, dropping some, keeps ids identifying. */
  lemma DrawnSound(v: Volume, w: Volume)
    requires Sound(v) && Drawn(v, w.active) && Drawn(v, w.deleted)
    requires w.active.Keys !! w.deleted.Keys
             || (forall p, q :: p in w.active && q in w.deleted ==> w.active[p].id != w.deleted[q].id)
    requires w.recovery == w.deleted && w.nextInode == v.nextInode && w.recycled == v.recycled
    ensures Sound(w)
  {
    forall i | 0 <= i < |w.recycled| ensures Unused(w, w.recycled[i]) { assert Unused(v, v.recycled[i]); }
  }

  /** A soft delete: the entry leaves the tree and becomes the recoverable one at its path. */
  function Trashed(v: Volume, path: Path): Volume
    requires path in v.active
  {
    var n := v.active[path];
    v.(active := v.active - {path}, deleted := v.deleted[path := n], recovery := v.recovery[path := n],
       dirty := v.dirty + {n.id})
  }

  /** The way back; an entry made at the path in the meantime is replaced. */
  function Revived(v: Volume, path: Path): Volume
    requires path in v.deleted
  {
    var n := v.deleted[path];
    v.(active := v.active[path := n], deleted := v.deleted - {path}, recovery := v.recovery - {path},
       dirty := v.dirty + {n.id})
  }

  /** Freeing an id for reuse together with its block. */
  function Released(v: Volume, id: nat): Volume {
    v.(blocks := v.blocks - {id}, recycled := v.recycled + [id])
  }

  lemma MovesKeepSound(v: Volume, path: Path)
    requires Sound(v)
    ensures path in v.active ==> Sound(Trashed(v, path))
    ensures path in v.deleted ==> Sound(Revived(v, path))
  {
    if path in v.active { DrawnSound(v, Trashed(v, path)); }
    if path in v.deleted { DrawnSound(v, Revived(v, path)); }
  }

  lemma TrashedMoves(cfg: Config, saved: map<nat, Bytes>, v: Volume, path: Path)
    requires path in v.active
    ensures Tree(cfg, Trashed(v, path)) == Tree(cfg, v) - {path}
    ensures Trash(cfg, Trashed(v, path)) == Trash(cfg, v)[path := Tree(cfg, v)[path]]
    ensures Faithful(cfg, v) ==> Faithful(cfg, Trashed(v, path))
    ensures Covers(saved, v) ==> Covers(saved, Trashed(v, path))
  {
  }

  lemma RevivedMoves(cfg: Config, saved: map<nat, Bytes>, v: Volume, path: Path)
    requires path in v.deleted
    ensures Tree(cfg, Revived(v, path)) == Tree(cfg, v)[path := Trash(cfg, v)[path]]
    ensures Trash(cfg, Revived(v, path)) == Trash(cfg, v) - {path}
    ensures Faithful(cfg, v) ==> Faithful(cfg, Revived(v, path))
    ensures Covers(saved, v) ==> Covers(saved, Revived(v, path))
  {
  }

  /** Deleting and restoring a path is the identity on the tree and on everything deleted before
      at other paths. */
  lemma RevivedUndoesTrashed(cfg: Config, v: Volume, path: Path)
    requires Sound(v) && path in v.active
    ensures var w := Revived(Trashed(v, path), path);
            && Tree(cfg, w) == Tree(cfg, v) && w.active == v.active
            && w.deleted == v.deleted - {path}
  {
    var w := Revived(Trashed(v, path), path);
    hide Sound, View;
    assert (v.active - {path})[path := v.active[path]] == v.active;
    assert v.deleted[path := v.active[path]] - {path} == v.deleted - {path};
  }

  /** A new file that shares the content of another one, right after its id was allocated. */
  lemma SharedPut(cfg: Config, saved: map<nat, Bytes>, u: Volume, w: Volume, from: Path, n: Inode)
    requires Sound(u) && from in u.active && u.active[from].kind == File && u.active[from].id in u.blocks
    requires var m := u.active[from];
             && n.path !in u.active && n.id == NextId(u) && n.kind == File && n.size == m.size && n.meta == m.meta
             && w == Allocated(u).(active := u.active[n.path := n], blocks := u.blocks[n.id := u.blocks[m.id]])
    ensures Sound(w) && Assigned(cfg, u, w, n.path, Tree(cfg, u)[from])
    ensures Covers(saved, u) ==>
              (Covers(saved, w) <==>
                 n.id in u.dirty || (n.id in saved && saved[n.id] == u.blocks[u.active[from].id]))
  {
    var v, m := Allocated(u), u.active[from];
    AllocatedFresh(u);
    AllocationKeeps(cfg, saved, u, v);
    assert Faithful(cfg, v) ==> Stored(cfg, v.blocks, m);
    hide Sound, Lawful, Faithful, Covers, Decode;
    PutSound(v, w, n);
    PutAssigns(cfg, v, w, n);
    assert Tree(cfg, v) == Tree(cfg, u) && Trash(cfg, v) == Trash(cfg, u);
    if Covers(saved, u) { UnmarkedPut(saved, v, w, n); }
  }

  /** Dropping a path without a trace: its entry and the recoverable one. */
  function Forgotten(v: Volume, path: Path): Volume {
    v.(active := v.active - {path}, deleted := v.deleted - {path}, recovery := v.recovery - {path})
  }

  lemma ForgottenSound(v: Volume, path: Path)
    requires Sound(v)
    ensures Sound(Forgotten(v, path))
    ensures path in v.active ==> Unused(Forgotten(v, path), v.active[path].id) && v.active[path].id !in v.recycled
    ensures path !in v.active && path in v.deleted ==>
              Unused(Forgotten(v, path), v.deleted[path].id) && v.deleted[path].id !in v.recycled
  {
    DrawnSound(v, Forgotten(v, path));
    forall i | 0 <= i < |v.recycled| ensures Unused(v, v.recycled[i]) {}
  }

  lemma ForgottenMoves(cfg: Config, saved: map<nat, Bytes>, v: Volume, path: Path)
    ensures Tree(cfg, Forgotten(v, path)) == Tree(cfg, v) - {path}
    ensures Trash(cfg, Forgotten(v, path)) == Trash(cfg, v) - {path}
    ensures Faithful(cfg, v) ==> Faithful(cfg, Forgotten(v, path))
    ensures Covers(saved, v) ==> Covers(saved, Forgotten(v, path))
  {
  }

  lemma RecycleSound(v: Volume, id: nat)
    requires Sound(v) && Unused(v, id) && id !in v.recycled && 0 < id <= v.nextInode
    ensures Sound(v.(recycled := v.recycled + [id]))
  {
    var w := v.(recycled := v.recycled + [id]);
    forall i | 0 <= i < |w.recycled| ensures Unused(w, w.recycled[i]) && 0 < w.recycled[i] <= w.nextInode {
      if i < |v.recycled| { assert w.recycled[i] == v.recycled[i] && Unused(v, v.recycled[i]); }
    }
    forall i, j | 0 <= i < j < |w.recycled| ensures w.recycled[i] != w.recycled[j] {
      assert w.recycled[i] == v.recycled[i];
      assert w.recycled[i] in v.recycled;
    }
  }

  lemma ReleasedKeeps(cfg: Config, saved: map<nat, Bytes>, v: Volume, id: nat)
    requires Sound(v) && Unused(v, id) && id !in v.recycled && 0 < id <= v.nextInode
    ensures Sound(Released(v, id))
    ensures Tree(cfg, Released(v, id)) == Tree(cfg, v) && Trash(cfg, Released(v, id)) == Trash(cfg, v)
    ensures Faithful(cfg, v) ==> Faithful(cfg, Released(v, id))
    ensures Covers(saved, v) ==> Covers(saved, Released(v, id))
  {
    var w := Released(v, id);
    ViewFrame(cfg, v.blocks, w.blocks, v.active, id);
    ViewFrame(cfg, v.blocks, w.blocks, v.deleted, id);
    if Faithful(cfg, v) {
      StoredFrame(cfg, v.blocks, w.blocks, v.active, id);
      StoredFrame(cfg, v.blocks, w.blocks, v.deleted, id);
    }
    RecycleSound(v, id);
    var x := v.(recycled := v.recycled + [id]);
    forall i | 0 <= i < |w.recycled| ensures Unused(w, w.recycled[i]) { assert Unused(x, x.recycled[i]); }
  }

  /** A secure delete: the entry, the recoverable entry at its path, and the block are gone, and
      the id is free again. Without a block it stops half way, keeping the id. */
  function Erased(v: Volume, path: Path): Volume
    requires path in v.active
  {
    var n, w := v.active[path], Forgotten(v, path);
    if n.id in v.blocks then Released(w, n.id).(dirty := v.dirty + {n.id}) else w
  }

  /** The path left the tree and everything else is as readable and as checkpointed as before. */
  ghost predicate Deleted(cfg: Config, saved: map<nat, Bytes>, v: Volume, w: Volume, path: Path) {
    && Tree(cfg, w) == Tree(cfg, v) - {path}
    && w.active == v.active - {path}
    && (Faithful(cfg, v) ==> Faithful(cfg, w))
    && (Covers(saved, v) ==> Covers(saved, w))
  }

  lemma TrashedKeeps(cfg: Config, saved: map<nat, Bytes>, v: Volume, path: Path)
    requires Sound(v) && path in v.active
    ensures Sound(Trashed(v, path)) && Deleted(cfg, saved, v, Trashed(v, path), path)
    ensures Trash(cfg, Trashed(v, path)) == Trash(cfg, v)[path := Tree(cfg, v)[path]]
  {
    hide Sound, Faithful, Covers, Tree, Trash;
    TrashedMoves(cfg, saved, v, path);
    MovesKeepSound(v, path);
  }

  lemma ForgottenDeletes(cfg: Config, saved: map<nat, Bytes>, v: Volume, path: Path)
    requires Sound(v) && path in v.active
    ensures var w, id := Forgotten(v, path), v.active[path].id;
            && Sound(w) && Deleted(cfg, saved, v, w, path) && Trash(cfg, w) == Trash(cfg, v) - {path}
            && Unused(w, id) && id !in w.recycled && 0 < id <= w.nextInode
  {
    assert 0 < v.active[path].id <= v.nextInode;
    hide Sound, Faithful, Covers, Tree, Trash, Unused;
    ForgottenSound(v, path);
    ForgottenMoves(cfg, saved, v, path);
  }

  lemma ReleasedDeletes(cfg: Config, saved: map<nat, Bytes>, v: Volume, w: Volume, path: Path, id: nat)
    requires Deleted(cfg, saved, v, w, path) && w.dirty == v.dirty
    requires Sound(w) && Unused(w, id) && id !in w.recycled && 0 < id <= w.nextInode
    ensures var x := Released(w, id).(dirty := v.dirty + {id});
            Sound(x) && Deleted(cfg, saved, v, x, path) && Trash(cfg, x) == Trash(cfg, w)
  {
    hide Sound, Faithful, Covers, Tree, Trash, Unused;
    ReleasedKeeps(cfg, saved, w, id);
    MoreDirty(cfg, saved, Released(w, id), Released(w, id).(dirty := v.dirty + {id}));
  }

  lemma ErasedKeeps(cfg: Config, saved: map<nat, Bytes>, v: Volume, path: Path)
    requires Sound(v) && path in v.active
    ensures Sound(Erased(v, path)) && Deleted(cfg, saved, v, Erased(v, path), path)
    ensures Trash(cfg, Erased(v, path)) == Trash(cfg, v) - {path}
  {
    var id := v.active[path].id;
    assert Forgotten(v, path).dirty == v.dirty;
    hide Sound, Deleted, Trash, Unused, Released, Forgotten;
    ForgottenDeletes(cfg, saved, v, path);
    if id in v.blocks { ReleasedDeletes(cfg, saved, v, Forgotten(v, path), path, id); }
  }

  /** The end of a recoverable entry: its block goes and its id is free again. */
  function Expunged(v: Volume, path: Path): Volume
    requires path in v.deleted
  {
    Released(v.(deleted := v.deleted - {path}, recovery := v.recovery - {path}), v.deleted[path].id)
  }

  lemma DroppedSound(v: Volume, path: Path)
    requires Sound(v) && path in v.deleted
    ensures var w := v.(deleted := v.deleted - {path}, recovery := v.recovery - {path});
            var id := v.deleted[path].id;
            Sound(w) && Unused(w, id) && id !in w.recycled && 0 < id <= w.nextInode
  {
    forall i | 0 <= i < |v.recycled| ensures v.recycled[i] != v.deleted[path].id { assert Unused(v, v.recycled[i]); }
    DrawnSound(v, v.(deleted := v.deleted - {path}, recovery := v.recovery - {path}));
  }

  lemma ExpungedKeeps(cfg: Config, saved: map<nat, Bytes>, v: Volume, path: Path)
    requires Sound(v) && path in v.deleted
    ensures Sound(Expunged(v, path))
    ensures Tree(cfg, Expunged(v, path)) == Tree(cfg, v)
    ensures Trash(cfg, Expunged(v, path)) == Trash(cfg, v) - {path}
    ensures Faithful(cfg, v) ==> Faithful(cfg, Expunged(v, path))
    ensures Covers(saved, v) ==> Covers(saved, Expunged(v, path))
  {
    hide Sound, Unused;
    var w := v.(deleted := v.deleted - {path}, recovery := v.recovery - {path});
    DroppedSound(v, path);
    assert Trash(cfg, w) == Trash(cfg, v) - {path} && (Faithful(cfg, v) ==> Faithful(cfg, w));
    hide Faithful, Covers, Tree, Trash;
    ReleasedKeeps(cfg, saved, w, v.deleted[path].id);
  }

  /** Marking more inodes dirty is harmless. */
  lemma MoreDirty(cfg: Config, saved: map<nat, Bytes>, v: Volume, w: Volume)
    requires w == v.(dirty := w.dirty) && v.dirty <= w.dirty
    ensures Sound(v) ==> Sound(w)
    ensures Tree(cfg, w) == Tree(cfg, v) && Trash(cfg, w) == Trash(cfg, v)
    ensures Faithful(cfg, v) ==> Faithful(cfg, w)
    ensures Covers(saved, v) ==> Covers(saved, w)
  {
    if Sound(v) {
      forall i | 0 <= i < |w.recycled| ensures Unused(w, w.recycled[i]) { assert Unused(v, v.recycled[i]); }
    }
  }
}
