/** Snapshots: what they capture, and when what they captured can be put back. */
module Snapshots {
  import opened ByteStrings
  import opened Wrappers
  import opened Sorting
  import opened Storage
  import opened Paths
  import opened Volumes
  import opened Changes

  datatype SnapshotInode = SnapshotInode(kind: Kind, size: nat, stamps: Stamps, meta: Metadata, target: Option<Bytes>)

  datatype Snapshot = Snapshot(
    id: nat,
    name: string,
    scope: Path,
    paths: seq<Path>,
    fileData: map<Path, Bytes>,
    inodes: map<Path, SnapshotInode>)

  predicate InScope(scope: Path, p: Path) { scope == "/" || InSubtree(scope, p) }

  function Capture(cfg: Config, v: Volume, n: Inode): SnapshotInode {
    var target := if n.kind == Symlink then Content(cfg, v.blocks, n) else None;
    SnapshotInode(n.kind, n.size, n.stamps, n.meta, target)
  }

  /** The snapshot holds the metadata of all entries in its scope and the bytes of the readable files. */
  ghost predicate Captures(cfg: Config, v: Volume, s: Snapshot) {
    && (forall p :: p in s.inodes <==> p in v.active && InScope(s.scope, p))
    && (forall p :: p in s.inodes ==> s.inodes[p] == Capture(cfg, v, v.active[p]))
    && (forall p :: p in s.fileData <==>
          p in s.inodes && v.active[p].kind == File && Content(cfg, v.blocks, v.active[p]).Some?)
    && (forall p :: p in s.fileData ==> Ok(s.fileData[p]) == ReadFile(cfg, v, p))
  }

  /** The same for the first part of the paths. */
  ghost predicate CapturedAmong(cfg: Config, v: Volume, paths: seq<Path>, fileData: map<Path, Bytes>,
                                inodes: map<Path, SnapshotInode>) {
    && (forall p :: p in inodes <==> p in paths)
    && (forall p :: p in inodes ==> p in v.active && inodes[p] == Capture(cfg, v, v.active[p]))
    && (forall p :: p in fileData <==>
          p in inodes && v.active[p].kind == File && Content(cfg, v.blocks, v.active[p]).Some?)
    && (forall p :: p in fileData ==> Ok(fileData[p]) == ReadFile(cfg, v, p))
  }

  lemma CaptureStep(cfg: Config, v: Volume, paths: seq<Path>, fileData: map<Path, Bytes>,
                    inodes: map<Path, SnapshotInode>, p: Path)
    requires CapturedAmong(cfg, v, paths, fileData, inodes) && p in v.active
    ensures var bytes := ReadFile(cfg, v, p);
            CapturedAmong(cfg, v, paths + [p],
                          if v.active[p].kind == File && bytes.Ok? then fileData[p := bytes.value] else fileData,
                          inodes[p := Capture(cfg, v, v.active[p])])
  {
    hide Decode;
  }

  lemma NothingCaptured(cfg: Config, v: Volume)
    ensures CapturedAmong(cfg, v, [], map[], map[])
  {
  }

  lemma AllCaptured(cfg: Config, v: Volume, s: Snapshot)
    requires CapturedAmong(cfg, v, s.paths, s.fileData, s.inodes)
    requires forall p :: p in s.paths <==> p in v.active && InScope(s.scope, p)
    ensures Captures(cfg, v, s) && forall p :: p in s.paths <==> p in s.inodes
  {
    hide Decode, InScope;
  }

  /** The bytes a restore writes for a captured file. */
  function DataOf(s: Snapshot, p: Path): Bytes { if p in s.fileData then s.fileData[p] else [] }

  /** A block written now for the captured bytes can be read under the captured flags. */
  predicate Fits(cfg: Config, s: Snapshot, p: Path)
    requires p in s.inodes
  {
    var si := s.inodes[p];
    match si.kind
    case Directory => true
    case Symlink => !si.meta.compressed && !si.meta.encrypted
    case File => si.meta.compressed == CompressNow(cfg, DataOf(s, p)) && si.meta.encrypted == EncryptNow(cfg)
  }

  /** The entry stands at its path with everything the snapshot knows about it. */
  ghost predicate Restored(cfg: Config, v: Volume, s: Snapshot, p: Path)
    requires p in s.inodes
  {
    var si := s.inodes[p];
    && p in v.active
    && v.active[p].kind == si.kind && v.active[p].meta == si.meta && v.active[p].stamps == si.stamps
    && (si.kind == File && Fits(cfg, s, p) ==> ReadFile(cfg, v, p) == Ok(DataOf(s, p)))
    // content that is not compressed, neither then nor now, reads back under the right encryption only
    && (si.kind == File && !si.meta.compressed && !CompressNow(cfg, DataOf(s, p)) ==>
          (ReadFile(cfg, v, p) == Ok(DataOf(s, p)) <==> si.meta.encrypted == EncryptNow(cfg)))
  }

  /** A symlink that had to be made again has the captured target; one that was there keeps its own. */
  ghost predicate LinkRestored(cfg: Config, v: Volume, w: Volume, s: Snapshot, p: Path)
    requires p in s.inodes
  {
    var si := s.inodes[p];
    si.kind == Symlink && Fits(cfg, s, p) ==>
      && (p !in v.active ==> ReadFile(cfg, w, p) == Ok(GetOr(si.target, [])))
      && (p in v.active && !v.active[p].meta.compressed && !v.active[p].meta.encrypted ==>
            ReadFile(cfg, w, p) == ReadFile(cfg, v, p))
  }

  /** The entry stands, with its captured content as far as a restore writes any, but not yet with the
      captured metadata. */
  ghost predicate Ensured(cfg: Config, v: Volume, w: Volume, s: Snapshot, p: Path)
    requires p in s.inodes
  {
    var si := s.inodes[p];
    && p in w.active && w.active[p].kind == si.kind && !Obstructed(v, s, p)
    && (si.kind == File ==>
          && ReadFile(cfg, w, p) == Ok(DataOf(s, p))
          && w.active[p].meta.compressed == CompressNow(cfg, DataOf(s, p))
          && w.active[p].meta.encrypted == EncryptNow(cfg))
    && (si.kind == Symlink ==>
          if p in v.active then w == v
          else w.active[p].id in w.blocks && w.blocks[w.active[p].id] == GetOr(si.target, []))
  }

  /** Putting the captured metadata on it completes the restore. */
  lemma RelabelRestores(cfg: Config, v: Volume, w: Volume, x: Volume, s: Snapshot, p: Path)
    requires Lawful(cfg.codec) && p in s.inodes && Ensured(cfg, v, w, s, p) && Relabelled(w, x, p)
    requires x.active[p].meta == s.inodes[p].meta && x.active[p].stamps == s.inodes[p].stamps
    ensures Restored(cfg, x, s, p) && LinkRestored(cfg, v, x, s, p)
    ensures Stored(cfg, w.blocks, w.active[p]) && Fits(cfg, s, p) ==> Stored(cfg, x.blocks, x.active[p])
  {
    var si := s.inodes[p];
    if si.kind == File && !si.meta.compressed && !CompressNow(cfg, DataOf(s, p)) {
      OtherEncryption(cfg, w.blocks[w.active[p].id], DataOf(s, p), si.meta.encrypted);
    }
    hide Lawful, Decode;
  }

  lemma LinkStays(cfg: Config, u: Volume, v: Volume, w: Volume, s: Snapshot, p: Path)
    requires p in s.inodes && p in v.active && v.active[p].kind == s.inodes[p].kind
    requires LinkRestored(cfg, u, v, s, p) && SameAt(cfg, v, w, p)
    ensures LinkRestored(cfg, u, w, s, p)
  {
  }

  lemma LinkStayed(cfg: Config, u: Volume, v: Volume, w: Volume, s: Snapshot, p: Path)
    requires p in s.inodes && !Obstructed(v, s, p)
    requires SameAt(cfg, u, v, p) && LinkRestored(cfg, v, w, s, p)
    ensures LinkRestored(cfg, u, w, s, p)
  {
  }

  /** The same entry with the same content. */
  ghost predicate SameAt(cfg: Config, v: Volume, w: Volume, p: Path) {
    && (p in v.active <==> p in w.active)
    && (p in v.active ==> v.active[p] == w.active[p] && Tree(cfg, v)[p] == Tree(cfg, w)[p])
  }

  /** Something else than the captured kind is in the way. */
  predicate Obstructed(v: Volume, s: Snapshot, p: Path)
    requires p in s.inodes
  {
    p in v.active && v.active[p].kind != s.inodes[p].kind
  }

  predicate Refused(v: Volume, s: Snapshot, p: Path)
    requires p in s.inodes
  {
    Obstructed(v, s, p) || (p !in v.active && !ValidPath(p))
  }

  /** Putting a snapshot of a readable volume back: an entry restored with fitting flags reads as it
      did when the snapshot was taken, and one that is compressed neither then nor now does so
      exactly when encryption has not been switched in between. */
  lemma RestoredReadsAsCaptured(cfg: Config, then_: Volume, s: Snapshot, now: Volume, p: Path)
    requires Captures(cfg, then_, s) && Faithful(cfg, then_)
    requires p in s.inodes && s.inodes[p].kind == File && Restored(cfg, now, s, p)
    ensures ReadFile(cfg, then_, p).Ok?
    ensures now.active[p].meta == then_.active[p].meta && now.active[p].stamps == then_.active[p].stamps
    ensures Fits(cfg, s, p) ==> ReadFile(cfg, now, p) == ReadFile(cfg, then_, p)
    ensures !s.inodes[p].meta.compressed && !CompressNow(cfg, DataOf(s, p)) ==>
              (ReadFile(cfg, now, p) == ReadFile(cfg, then_, p) <==> s.inodes[p].meta.encrypted == EncryptNow(cfg))
  {
    assert Stored(cfg, then_.blocks, then_.active[p]);
    hide Decode, CompressNow;
  }

  /** The first snapshot with the id. */
  function Find(snapshots: seq<Snapshot>, id: nat): Option<Snapshot> {
    if snapshots == [] then None
    else if snapshots[0].id == id then Some(snapshots[0])
    else Find(snapshots[1..], id)
  }

  lemma SameAtTransitive(cfg: Config, u: Volume, v: Volume, w: Volume, p: Path)
    requires SameAt(cfg, u, v, p) && SameAt(cfg, v, w, p)
    ensures SameAt(cfg, u, w, p)
  {
  }

  lemma RestoredStays(cfg: Config, v: Volume, w: Volume, s: Snapshot, p: Path)
    requires p in s.inodes && Restored(cfg, v, s, p) && SameAt(cfg, v, w, p)
    ensures Restored(cfg, w, s, p)
  {
  }

  lemma UnchangedIsSame(cfg: Config, v: Volume, w: Volume, p: Path)
    requires v.active == w.active && v.blocks == w.blocks
    ensures SameAt(cfg, v, w, p)
  {
    assert Tree(cfg, v) == Tree(cfg, w);
  }

  /** The files of a snapshot among some of its paths. */
  function FilesOf(s: Snapshot, paths: set<Path>): set<Path> {
    set p | p in paths && p in s.inodes && s.inodes[p].kind == File
  }

  /** With the entries `done`, all but the skipped ones are restored and nothing else has changed. */
  ghost predicate Placed(cfg: Config, v: Volume, w: Volume, s: Snapshot, done: set<Path>, skipped: set<Path>) {
    && skipped <= done && done <= s.inodes.Keys
    && (forall p :: p in done && p !in skipped ==> Restored(cfg, w, s, p) && LinkRestored(cfg, v, w, s, p))
    && (forall q :: q !in done || q in skipped ==> SameAt(cfg, v, w, q))
  }

  /** The files among the restored entries are counted, and without a quota exactly those entries
      are skipped that something is in the way of or that no entry can be created for. */
  ghost predicate Accounted(cfg: Config, v: Volume, s: Snapshot, done: set<Path>, skipped: set<Path>, files: nat) {
    && skipped <= done && done <= s.inodes.Keys
    && files == |FilesOf(s, done - skipped)|
    && (forall p :: p in done && Refused(v, s, p) ==> p in skipped)
    && (Unlimited(cfg) ==> forall p :: p in skipped ==> Refused(v, s, p))
  }

  lemma FilesOfPush(s: Snapshot, done: set<Path>, skipped: set<Path>, p: Path)
    requires p in s.inodes && p !in done && skipped <= done
    ensures |FilesOf(s, done + {p} - skipped)| ==
              |FilesOf(s, done - skipped)| + if s.inodes[p].kind == File then 1 else 0
    ensures done + {p} - (skipped + {p}) == done - skipped
  {
    assert FilesOf(s, done + {p} - skipped) ==
           FilesOf(s, done - skipped) + if s.inodes[p].kind == File then {p} else {};
    assert done + {p} - (skipped + {p}) == done - skipped;
  }

  lemma PlacedStep(cfg: Config, v: Volume, w: Volume, x: Volume, s: Snapshot, done: set<Path>,
                   skipped: set<Path>, p: Path, ok: bool)
    requires Placed(cfg, v, w, s, done, skipped) && p !in done && p in s.inodes
    requires if ok then Restored(cfg, x, s, p) && LinkRestored(cfg, w, x, s, p) && !Obstructed(w, s, p)
             else SameAt(cfg, w, x, p)
    requires forall q :: q != p ==> SameAt(cfg, w, x, q)
    ensures Placed(cfg, v, x, s, done + {p}, if ok then skipped else skipped + {p})
    ensures Refused(w, s, p) <==> Refused(v, s, p)
  {
    var skipped' := if ok then skipped else skipped + {p};
    forall q | q in done + {p} && q !in skipped' ensures Restored(cfg, x, s, q) && LinkRestored(cfg, v, x, s, q) {
      if q == p { LinkStayed(cfg, v, w, x, s, q); } else {
        RestoredStays(cfg, w, x, s, q);
        LinkStays(cfg, v, w, x, s, q);
      }
    }
    forall q | q !in done + {p} || q in skipped' ensures SameAt(cfg, v, x, q) {
      SameAtTransitive(cfg, v, w, x, q);
    }
    assert SameAt(cfg, v, w, p);
  }

  lemma AccountedStep(cfg: Config, v: Volume, s: Snapshot, done: set<Path>, skipped: set<Path>, files: nat,
                      p: Path, ok: bool)
    requires Accounted(cfg, v, s, done, skipped, files) && p !in done && p in s.inodes
    requires Refused(v, s, p) ==> !ok
    requires Unlimited(cfg) && !Refused(v, s, p) ==> ok
    ensures !ok ==> Accounted(cfg, v, s, done + {p}, skipped + {p}, files)
    ensures ok ==> Accounted(cfg, v, s, done + {p}, skipped, files + if s.inodes[p].kind == File then 1 else 0)
  {
    hide Refused, FilesOf, ValidPath;
    FilesOfPush(s, done, skipped, p);
  }

  lemma NothingRestored(cfg: Config, v: Volume, s: Snapshot)
    ensures Placed(cfg, v, v, s, {}, {}) && Accounted(cfg, v, s, {}, {}, 0)
  {
  }

  /** Replacing only the metadata and time stamps of an entry. */
  ghost predicate Relabelled(v: Volume, w: Volume, path: Path) {
    && path in v.active && path in w.active
    && w == v.(active := v.active[path := w.active[path]])
    && w.active[path] == v.active[path].(meta := w.active[path].meta, stamps := w.active[path].stamps)
  }

  lemma RelabelKeeps(cfg: Config, saved: map<nat, Bytes>, v: Volume, w: Volume, path: Path)
    requires Sound(v) && Relabelled(v, w, path)
    ensures Sound(w)
    ensures Covers(saved, v) ==> Covers(saved, w)
    ensures Faithful(cfg, v) && Stored(cfg, w.blocks, w.active[path]) ==> Faithful(cfg, w)
  {
    PutSound(v, w, w.active[path]);
    if Faithful(cfg, v) {
      forall p | p in w.active && p != path ensures Stored(cfg, w.blocks, w.active[p]) {
        assert Stored(cfg, v.blocks, v.active[p]);
      }
    }
  }

  lemma RelabelElsewhere(cfg: Config, v: Volume, w: Volume, path: Path, q: Path)
    requires Relabelled(v, w, path) && q != path
    ensures SameAt(cfg, v, w, q)
  {
  }

  lemma UpdatedElsewhere(cfg: Config, saved: map<nat, Bytes>, v: Volume, w: Volume, path: Path, q: Path)
    requires path in w.active && Updated(cfg, saved, v, w, path, NodeOf(cfg, w.blocks, w.active[path])) && q != path
    ensures SameAt(cfg, v, w, q)
  {
    TreeKeys(cfg, v);
    TreeKeys(cfg, w);
  }

  lemma UpdatedKeeps(cfg: Config, saved: map<nat, Bytes>, v: Volume, w: Volume, path: Path)
    requires path in w.active && Updated(cfg, saved, v, w, path, NodeOf(cfg, w.blocks, w.active[path]))
    ensures Faithful(cfg, v) ==> Faithful(cfg, w) && Stored(cfg, w.blocks, w.active[path])
    ensures Covers(saved, v) ==> Covers(saved, w)
  {
  }

  /** How the allocator moves when one entry is ensured. */
  predicate AllocatorStep(v: Volume, w: Volume, p: Path) {
    if p in v.active || p !in w.active then SameAllocator(w, v) || SameAllocator(w, Allocated(v))
    else SameAllocator(w, Allocated(v)) && w.active[p].id == NextId(v)
  }

  /** Entries that had to be made have been made in the order of the listing: when no id waits for
      reuse, later ones have greater ids. */
  ghost predicate MadeInOrder(v: Volume, w: Volume, listing: seq<Path>) {
    v.recycled == [] ==>
      && w.recycled == []
      && (forall i :: 0 <= i < |listing| && listing[i] in w.active && listing[i] !in v.active ==>
            w.active[listing[i]].id <= w.nextInode)
      && (forall i, j :: 0 <= i < j < |listing| && listing[i] in w.active && listing[i] !in v.active
                         && listing[j] in w.active && listing[j] !in v.active ==>
            w.active[listing[i]].id < w.active[listing[j]].id)
  }

  lemma MadeNext(cfg: Config, v: Volume, w: Volume, x: Volume, listing: seq<Path>, p: Path)
    requires MadeInOrder(v, w, listing) && AllocatorStep(w, x, p) && p !in listing
    requires (p in w.active <==> p in v.active) && forall q :: q != p ==> SameAt(cfg, w, x, q)
    ensures MadeInOrder(v, x, listing + [p])
  {
    var more := listing + [p];
    forall i | 0 <= i < |listing| ensures SameAt(cfg, w, x, listing[i]) { assert listing[i] != p; }
    hide Tree;
  }

  lemma NothingMade(v: Volume)
    ensures MadeInOrder(v, v, []) && Ascending<Path>(Less, [])
  {
  }

  lemma MadeStep(cfg: Config, v: Volume, w: Volume, x: Volume, listing: seq<Path>, i: nat)
    requires i < |listing| && Ascending(Less, listing)
    requires MadeInOrder(v, w, listing[..i]) && AllocatorStep(w, x, listing[i])
    requires SameAt(cfg, v, w, listing[i]) && forall q :: q != listing[i] ==> SameAt(cfg, w, x, q)
    ensures MadeInOrder(v, x, listing[..i + 1])
  {
    assert listing[..i + 1] == listing[..i] + [listing[i]];
    PathOrder();
    assert listing[i] !in listing[..i];
    hide MadeInOrder, AllocatorStep, Less, Tree;
    MadeNext(cfg, v, w, x, listing[..i], listing[i]);
  }

  lemma PlacedSame(cfg: Config, v: Volume, w: Volume, s: Snapshot, done: set<Path>, skipped: set<Path>, p: Path)
    requires Placed(cfg, v, w, s, done, skipped) && p !in done
    ensures SameAt(cfg, v, w, p) && skipped <= done
  {
  }

  /** So a directory that had to be made is older than everything made below it. */
  lemma DirectoriesMadeFirst(v: Volume, w: Volume, listing: seq<Path>, d: Path, p: Path)
    requires MadeInOrder(v, w, listing) && Ascending(Less, listing) && v.recycled == []
    requires d in listing && p in listing && Below(d, p)
    requires d in w.active && d !in v.active && p in w.active && p !in v.active
    ensures w.active[d].id < w.active[p].id
  {
    var i :| 0 <= i < |listing| && listing[i] == d;
    var j :| 0 <= j < |listing| && listing[j] == p;
    ParentsFirst(listing, i, j);
  }
}
