/** The file-system service: its state and the operations that change it. */
module Services {
  import opened ByteStrings
  import opened Wrappers
  import opened Sorting
  import opened Paths
  import opened Storage
  import opened Volumes
  import opened Changes
  import opened Renaming
  import opened Cloning
  import opened Snapshots
  import opened Reconciliation

  function Check(refusal: Option<Error>): Result<()> {
    match refusal
    case None => Ok(())
    case Some(e) => Err(e)
  }

  // ----- when an operation is refused -----

  ghost function CreateRefusal(cfg: Config, v: Volume, path: Path, newFiles: nat, newBytes: nat): Option<Error> {
    if !ValidPath(path) then Some(InvalidInput)
    else if path in v.active then Some(AlreadyExists)
    else if newFiles > 0 && !QuotaOk(cfg, v, newFiles, newBytes) then Some(PolicyViolation)
    else None
  }

  ghost function ResizeRefusal(cfg: Config, v: Volume, path: Path, size: nat): Option<Error> {
    if path !in v.active then Some(NotFound)
    else if v.active[path].kind != File then Some(InvalidInput)
    else if size > v.active[path].size && !QuotaOk(cfg, v, 0, size - v.active[path].size) then Some(PolicyViolation)
    else None
  }

  /** The old content is needed, to be patched or kept as a version, and cannot be had. */
  ghost predicate Unfetched(cfg: Config, v: Volume, n: Inode) {
    if Plain(n) then cfg.keepVersions && n.id !in v.blocks else Content(cfg, v.blocks, n).None?
  }

  ghost function RangeRefusal(cfg: Config, v: Volume, path: Path, offset: nat, bytes: Bytes): Option<Error> {
    if path in v.active && v.active[path].kind == File && offset + |bytes| > U64_MAX then Some(InvalidInput)
    else
      var size := if path in v.active then Max(offset + |bytes|, v.active[path].size) else 0;
      var refusal := ResizeRefusal(cfg, v, path, size);
      if refusal.Some? then refusal
      else if Unfetched(cfg, v, v.active[path]) then Some(State)
      else if Plain(v.active[path]) && WriteRange(RawOr(v.blocks, v.active[path].id), offset, bytes).Err?
      then Some(InvalidInput)
      else None
  }

  ghost function TruncateRefusal(cfg: Config, v: Volume, path: Path, size: nat): Option<Error> {
    var refusal := ResizeRefusal(cfg, v, path, size);
    if refusal.Some? then refusal
    else if Unfetched(cfg, v, v.active[path]) then Some(State)
    else if Plain(v.active[path]) && ResizeBlock(RawOr(v.blocks, v.active[path].id), size).Err?
    then Some(InvalidInput)
    else None
  }

  ghost function ExtendRefusal(cfg: Config, v: Volume, path: Path): Option<Error> {
    if path !in v.active then Some(NotFound)
    else if v.active[path].kind != File then Some(InvalidInput)
    else if !Plain(v.active[path]) && Content(cfg, v.blocks, v.active[path]).None? then Some(State)
    else None
  }

  /** A secure delete of an entry without block is reported as an error, although the entry is gone. */
  function DeleteRefusal(v: Volume, path: Path, secure: bool): Option<Error> {
    if path !in v.active then Some(NotFound)
    else if secure && v.active[path].id !in v.blocks then Some(State)
    else None
  }

  /** What a rename starts moving from: an entry at the target has been soft-deleted. */
  function RenameBase(v: Volume, to: Path): Volume {
    if to in v.active then Trashed(v, to) else v
  }

  ghost function CloneRefusal(cfg: Config, v: Volume, from: Path, to: Path): Option<Error> {
    if !ValidPath(to) then Some(InvalidInput)
    else if from !in v.active then Some(NotFound)
    else if v.active[from].kind != File then Some(InvalidInput)
    else if to in v.active then Some(AlreadyExists)
    else if cfg.copyOnWrite then
      if !QuotaOk(cfg, v, 1, v.active[from].size) then Some(PolicyViolation)
      else if v.active[from].id !in v.blocks then Some(State)
      else None
    else match ReadFile(cfg, v, from)
         case Err(e) => Some(e)
         case Ok(bytes) => CreateRefusal(cfg, v, to, 1, |bytes|)
  }

  function CloneTreeRefusal(v: Volume, from: Path, to: Path): Option<Error> {
    if !ValidPath(to) then Some(InvalidInput)
    else if from !in v.active then Some(NotFound)
    else if v.active[from].kind != Directory then Some(InvalidInput)
    else if to in v.active then Some(AlreadyExists)
    else None
  }

  datatype RestoreReport = RestoreReport(restoredFiles: nat, skipped: seq<Path>)

  /** Nothing stands in the way of a clone: empty, nameable targets and no quota. */
  ghost predicate CloneFits(cfg: Config, v: Volume, mv: Moves) {
    && Unlimited(cfg) && Faithful(cfg, v)
    && (forall p :: p in mv ==> mv[p] !in v.active && ValidPath(mv[p]))
  }

  /** The content after a range write: the splice, except that a plain file ignores a write of no bytes. */
  function RangeContent(n: Inode, content: Bytes, offset: nat, bytes: Bytes): Bytes {
    if bytes == [] && Plain(n) then content else Splice(content, offset, bytes)
  }

  /** Whether a file is stored plain is visible through range writes in exactly one case: a write
      of no bytes past the end of the file. */
  lemma RangeWritesAgree(plain: Inode, packed: Inode, content: Bytes, offset: nat, bytes: Bytes)
    requires Plain(plain) && !Plain(packed)
    ensures RangeContent(plain, content, offset, bytes) == RangeContent(packed, content, offset, bytes)
      <==> bytes != [] || offset <= |content|
  {
    SpliceNothing(content, offset);
  }

  /** The operation rewrote the file at `path` in place: it is the same inode, still a file. */
  ghost predicate Rewritten(cfg: Config, saved: map<nat, Bytes>, v: Volume, w: Volume, path: Path) {
    && path in v.active && path in w.active
    && Updated(cfg, saved, v, w, path, NodeOf(cfg, w.blocks, w.active[path]))
    && w.active[path].id == v.active[path].id && w.active[path].path == v.active[path].path
    && v.active[path].kind == w.active[path].kind == File
    && w.active[path].meta.attributes == v.active[path].meta.attributes
    && w.active[path].stamps.created == v.active[path].stamps.created
    && OneBlock(v.blocks, w.blocks, v.active[path].id)
  }

  predicate Plain(n: Inode) { !n.meta.compressed && !n.meta.encrypted }

  /** The permission bits of a mode; type bits are dropped. */
  function Permissions(mode: bv32): nat { (mode & 0xFFF) as nat }

  class CoreFsService {
    const cfg: Config
    var active: Catalog
    var deleted: Catalog
    var recovery: Catalog
    /** The content of every inode, as the block store reads it back. The store's write leaves all other
        inodes as they were exactly as long as the blocks it reuses hold nothing of another record, as when
        all records are contiguous: see the lemma `IsolatedExact` of the block store. Operations that also
        have the store compacted in the background need more: see `CompactionExact`. */
    var blocks: map<nat, Bytes>
    var nextInode: nat
    var recycled: seq<nat>
    var dirtyInodes: set<nat>
    var snapshots: seq<Snapshot>
    var nextSnapshotId: nat
    /** The raw blocks persisted by the last checkpoint. */
    ghost var saved: map<nat, Bytes>

    function State(): Volume
      reads this
    {
      Volume(active, deleted, recovery, blocks, nextInode, recycled, dirtyInodes)
    }

    ghost predicate Valid()
      reads this
    {
      Sound(State()) && Lawful(cfg.codec)
    }

    constructor (cfg: Config)
      requires Lawful(cfg.codec)
      ensures Valid() && this.cfg == cfg && State() == Volume(map[], map[], map[], map[], 0, [], {})
      ensures Faithful(cfg, State()) && Covers(saved, State())
    {
      this.cfg := cfg;
      active, deleted, recovery, blocks := map[], map[], map[], map[];
      nextInode, recycled, dirtyInodes, saved := 0, [], {}, map[];
      snapshots, nextSnapshotId := [], 0;
    }

    method QuotaStats() returns (files: nat, bytes: nat)
      ensures files == FileCount(active) && bytes == TotalSize(active)
    {
      files, bytes := 0, 0;
      var todo := active;
      while todo != map[]
        invariant todo.Keys <= active.Keys && forall p :: p in todo ==> todo[p] == active[p]
        invariant files + FileCount(todo) == FileCount(active)
        invariant bytes + TotalSize(todo) == TotalSize(active)
        decreases |todo|
      {
        var p :| p in todo;
        TotalSizeSplit(todo, p);
        assert NonDirectories(todo - {p}) == NonDirectories(todo) - {p};
        if todo[p].kind != Directory {
          files, bytes := files + 1, bytes + todo[p].size;
        }
        todo := todo - {p};
      }
      assert NonDirectories(todo) == {};
    }

    /** `check_stats` over the current usage. */
    method CheckQuota(newFiles: nat, newBytes: nat) returns (ok: bool)
      ensures ok == QuotaOk(cfg, State(), newFiles, newBytes)
    {
      var files, bytes := QuotaStats();
      ok := Within(cfg.maxFiles, files + newFiles) && Within(cfg.maxBytes, bytes + newBytes);
    }

    method Allocate() returns (id: nat)
      requires Valid()
      modifies this`nextInode, this`recycled
      ensures id == NextId(old(State())) && State() == Allocated(old(State()))
      ensures Valid() && Unused(State(), id) && id !in recycled && 0 < id <= nextInode
    {
      AllocatedFresh(State());
      if recycled != [] {
        id, recycled := recycled[0], recycled[1..];
      } else {
        nextInode := nextInode + 1;
        id := nextInode;
      }
    }

    method Claim(id: nat)
      requires Valid()
      modifies this`nextInode, this`recycled
      ensures State() == Claimed(old(State()), id)
      ensures Valid() && id !in recycled && id <= nextInode && (Unused(State(), id) <==> old(Unused(State(), id)))
    {
      ClaimedFresh(State(), id);
      recycled, nextInode := Without(recycled, id), if id > nextInode then id else nextInode;
    }

    /** Insert an inode, with a new block if one is given, and mark it dirty. */
    method Put(n: Inode, raw: Option<Bytes>)
      requires Valid() && Free(State(), n.path, n.id)
      requires 0 < n.id <= nextInode && n.id !in recycled
      requires var b := if raw.Some? then blocks[n.id := raw.value] else blocks;
               Faithful(cfg, State()) ==> Stored(cfg, b, n)
      modifies this`active, this`blocks, this`dirtyInodes
      ensures Valid()
      ensures State() == old(State()).(active := active, blocks := blocks, dirty := dirtyInodes)
      ensures active == old(active)[n.path := n] && dirtyInodes == old(dirtyInodes) + {n.id}
      ensures blocks == if raw.Some? then old(blocks)[n.id := raw.value] else old(blocks)
      ensures Updated(cfg, saved, old(State()), State(), n.path, NodeOf(cfg, blocks, n))
    {
      ghost var v := State();
      active := active[n.path := n];
      if raw.Some? { blocks := blocks[n.id := raw.value]; }
      dirtyInodes := dirtyInodes + {n.id};
      PutSound(v, State(), n);
      PutUpdates(cfg, saved, v, State(), n);
    }

    method CreateFile(path: Path, bytes: Bytes, tags: seq<string>) returns (r: Result<()>)
      requires Valid()
      modifies this`active, this`blocks, this`dirtyInodes, this`nextInode, this`recycled
      ensures Valid()
      ensures r == Check(CreateRefusal(cfg, old(State()), path, 1, |bytes|))
      ensures r.Err? ==> State() == Allocated(old(State()))
      ensures r.Ok? ==> SameAllocator(State(), Allocated(old(State())))
      ensures r.Ok? ==> Updated(cfg, saved, old(State()), State(), path, Regular(Some(bytes)))
      ensures r.Ok? ==> OneBlock(old(blocks), blocks, NextId(old(State())))
      ensures r.Ok? ==> active[path].kind == File && active[path].id == NextId(old(State()))
      ensures r.Ok? ==> active[path].meta.attributes == DEFAULT_METADATA.attributes.(tags := tags)
      ensures r.Ok? ==> active[path].meta.compressed == CompressNow(cfg, bytes)
      ensures r.Ok? ==> active[path].meta.encrypted == EncryptNow(cfg)
    {
      hide Sound, Lawful, Faithful, Covers, Tree, Trash;
      ClaimedAllocated(State());
      var id := Allocate();
      ghost var v := State();
      r := CreateFileWithInode(path, bytes, tags, id);
      if r.Ok? { AllocationAside(cfg, saved, old(State()), v, State(), path, Regular(Some(bytes))); }
    }

    /** The same with an id chosen by the caller, which is not looked at: the ids of the volume still identify
        afterwards exactly when it is a positive one that no entry carries. */
    method CreateFileWithInode(path: Path, bytes: Bytes, tags: seq<string>, id: nat) returns (r: Result<()>)
      requires Valid()
      modifies this`active, this`blocks, this`dirtyInodes, this`nextInode, this`recycled
      ensures Valid() <==> r.Err? || (id > 0 && old(Unused(State(), id)))
      ensures r == Check(CreateRefusal(cfg, old(State()), path, 1, |bytes|))
      ensures r.Err? ==> State() == old(State())
      ensures r.Ok? ==> SameAllocator(State(), Claimed(old(State()), id))
      ensures r.Ok? ==> path in active && active == old(active)[path := active[path]]
      ensures r.Ok? ==> id in blocks && blocks == old(blocks)[id := blocks[id]]
      ensures r.Ok? ==> Content(cfg, blocks, active[path]) == Some(bytes)
      ensures r.Ok? && Valid() ==> Updated(cfg, saved, old(State()), State(), path, Regular(Some(bytes)))
      ensures r.Ok? ==> active[path].kind == File && active[path].id == id
      ensures r.Ok? ==> active[path].meta.attributes == DEFAULT_METADATA.attributes.(tags := tags)
      ensures r.Ok? ==> active[path].meta.compressed == CompressNow(cfg, bytes)
      ensures r.Ok? ==> active[path].meta.encrypted == EncryptNow(cfg)
    {
      hide Sound, Lawful, Faithful, Covers, Tree, Trash;
      if !ValidPath(path) { return Err(InvalidInput); }
      if path in active { return Err(AlreadyExists); }
      var ok := CheckQuota(1, |bytes|);
      if !ok { return Err(PolicyViolation); }
      Claim(id);
      ghost var v := State();
      var nonce: nat, now: nat := *, *;
      DecodeEncode(cfg, nonce, bytes);
      var meta := Metadata(CompressNow(cfg, bytes), EncryptNow(cfg), DEFAULT_METADATA.attributes.(tags := tags));
      var n := Inode(id, File, path, |bytes|, Stamps(now, now, now), meta);
      active := active[path := n];
      blocks := blocks[id := Encode(cfg, nonce, bytes)];
      dirtyInodes := dirtyInodes + {id};
      r := Ok(());
      ghost var w := State();
      if id > 0 && Unused(v, id) {
        PutSound(v, w, n);
        PutUpdates(cfg, saved, v, w, n);
        AllocationAside(cfg, saved, old(State()), v, w, path, Regular(Some(bytes)));
      } else {
        TakenIdSpoils(v, w, n);
      }
    }

    method CreateDirectory(path: Path) returns (r: Result<()>)
      requires Valid()
      modifies this`active, this`blocks, this`dirtyInodes, this`nextInode, this`recycled
      ensures Valid()
      ensures r == Check(CreateRefusal(cfg, old(State()), path, 0, 0))
      ensures r.Err? ==> State() == Allocated(old(State()))
      ensures r.Ok? ==> SameAllocator(State(), Allocated(old(State())))
      ensures r.Ok? ==> Updated(cfg, saved, old(State()), State(), path, Dir)
      ensures r.Ok? ==> active[path].kind == Directory && active[path].id == NextId(old(State()))
      ensures r.Ok? ==> active[path].meta == DEFAULT_METADATA
    {
      hide Sound, Lawful, Faithful, Covers, Tree, Trash;
      ClaimedAllocated(State());
      var id := Allocate();
      if !ValidPath(path) { return Err(InvalidInput); }
      if path in active { return Err(AlreadyExists); }
      Claim(id);
      ghost var v := State();
      var now: nat := *;
      Put(Inode(id, Directory, path, 0, Stamps(now, now, now), DEFAULT_METADATA), None);
      AllocationAside(cfg, saved, old(State()), v, State(), path, Dir);
      r := Ok(());
    }

    method CreateSymlink(path: Path, target: Bytes) returns (r: Result<()>)
      requires Valid()
      modifies this`active, this`blocks, this`dirtyInodes, this`nextInode, this`recycled
      ensures Valid()
      ensures r == Check(CreateRefusal(cfg, old(State()), path, 0, 0))
      ensures r.Err? ==> State() == old(State())
      ensures r.Ok? ==> SameAllocator(State(), Allocated(old(State())))
      ensures r.Ok? ==> Updated(cfg, saved, old(State()), State(), path, Link(Some(target)))
      ensures r.Ok? ==> OneBlock(old(blocks), blocks, NextId(old(State())))
      ensures r.Ok? ==> active[path].kind == Symlink && active[path].id == NextId(old(State()))
      ensures r.Ok? ==> active[path].meta == DEFAULT_METADATA
    {
      hide Sound, Lawful, Faithful, Covers, Tree, Trash;
      if !ValidPath(path) { return Err(InvalidInput); }
      if path in active { return Err(AlreadyExists); }
      var id := Allocate();
      ghost var v := State();
      var now: nat := *;
      Put(Inode(id, Symlink, path, |target|, Stamps(now, now, now), DEFAULT_METADATA), Some(target));
      AllocationAside(cfg, saved, old(State()), v, State(), path, Link(Some(target)));
      r := Ok(());
    }

    /** The checks in front of every change of a file's size. */
    method CheckResize(path: Path, size: nat) returns (r: Result<()>)
      ensures r == Check(ResizeRefusal(cfg, State(), path, size))
    {
      if path !in active { return Err(NotFound); }
      var n := active[path];
      if n.kind != File { return Err(InvalidInput); }
      if size > n.size {
        var ok := CheckQuota(0, size - n.size);
        if !ok { return Err(PolicyViolation); }
      }
      r := Ok(());
    }

    method WriteFile(path: Path, bytes: Bytes) returns (r: Result<()>)
      requires Valid()
      modifies this`active, this`blocks, this`dirtyInodes
      ensures Valid()
      ensures r == Check(ResizeRefusal(cfg, old(State()), path, |bytes|))
      ensures r.Err? ==> State() == old(State())
      ensures r.Ok? ==> Rewritten(cfg, saved, old(State()), State(), path)
      ensures r.Ok? ==> ReadFile(cfg, State(), path) == Ok(bytes)
      ensures r.Ok? ==> active[path].meta.compressed == CompressNow(cfg, bytes)
      ensures r.Ok? ==> active[path].meta.encrypted == EncryptNow(cfg)
    {
      r := CheckResize(path, |bytes|);
      if r.Err? { return; }
      var n := active[path];
      var nonce: nat, now: nat := *, *;
      DecodeEncode(cfg, nonce, bytes);
      Put(n.(size := |bytes|, stamps := n.stamps.(modified := now, changed := now),
             meta := n.meta.(compressed := CompressNow(cfg, bytes), encrypted := EncryptNow(cfg))),
          Some(Encode(cfg, nonce, bytes)));
      r := Ok(());
    }

    method WriteFileRange(path: Path, offset: nat, bytes: Bytes) returns (r: Result<()>)
      requires Valid()
      modifies this`active, this`blocks, this`dirtyInodes
      ensures Valid()
      ensures r.Err? ==> State() == old(State())
      ensures r.Ok? ==> Rewritten(cfg, saved, old(State()), State(), path)
      ensures r == Check(RangeRefusal(cfg, old(State()), path, offset, bytes))
      ensures Faithful(cfg, old(State())) && r.Ok? ==>
                ReadFile(cfg, State(), path) ==
                Ok(RangeContent(old(active)[path], ReadFile(cfg, old(State()), path).value, offset, bytes))
    {
      if path !in active { return Err(NotFound); }
      var n := active[path];
      if n.kind == File && offset + |bytes| > U64_MAX { return Err(InvalidInput); }
      var size := Max(offset + |bytes|, n.size);
      r := CheckResize(path, size);
      if r.Err? { return; }
      assert Faithful(cfg, State()) ==> Stored(cfg, blocks, n);
      hide Sound, Lawful, Covers, Faithful, Trash, Decode;
      if !Plain(n) {
        var existing := ReadFile(cfg, State(), path);
        if existing.Err? { return Err(existing.error); }
        var grown := Resize(existing.value, size);
        var patched := grown[..offset] + bytes + grown[offset + |bytes|..];
        assert |patched| == size;
        r := WriteFile(path, patched);
        return;
      }
      if cfg.keepVersions && n.id !in blocks { return Err(Error.State); }
      r := WritePlainRange(path, offset, bytes);
    }

    method WritePlainRange(path: Path, offset: nat, bytes: Bytes) returns (r: Result<()>)
      requires Valid() && path in active && active[path].kind == File && Plain(active[path])
      modifies this`active, this`blocks, this`dirtyInodes
      ensures Valid()
      ensures r.Err? ==> State() == old(State())
      ensures r.Ok? ==> Rewritten(cfg, saved, old(State()), State(), path)
      ensures var outcome := WriteRange(RawOr(old(blocks), old(active)[path].id), offset, bytes);
              r == Check(if outcome.Err? then Some(InvalidInput) else None)
      ensures r.Ok? && ReadFile(cfg, old(State()), path).Ok? ==>
                ReadFile(cfg, State(), path) ==
                Ok(RangeContent(old(active)[path], ReadFile(cfg, old(State()), path).value, offset, bytes))
    {
      var n := active[path];
      WriteRangeIsSplice(RawOr(blocks, n.id), offset, bytes);
      var outcome := WriteRange(RawOr(blocks, n.id), offset, bytes);
      if outcome.Err? { return Err(outcome.error); }
      var RangeWrite(raw, changed) := outcome.value;
      if changed {
        var now: nat := *;
        Put(n.(size := |raw|, stamps := n.stamps.(modified := now, changed := now)), Some(raw));
      } else {
        ghost var v := State();
        active := active[path := n.(size := |raw|)];
        PutSound(v, State(), active[path]);
        PutUpdates(cfg, saved, v, State(), active[path]);
      }
      r := Ok(());
    }

    method TruncateFile(path: Path, size: nat) returns (r: Result<()>)
      requires Valid()
      modifies this`active, this`blocks, this`dirtyInodes
      ensures Valid()
      ensures r.Err? ==> State() == old(State())
      ensures r.Ok? ==> Rewritten(cfg, saved, old(State()), State(), path)
      ensures r == Check(TruncateRefusal(cfg, old(State()), path, size))
      ensures Faithful(cfg, old(State())) && r.Ok? ==>
                ReadFile(cfg, State(), path) == Ok(Resize(ReadFile(cfg, old(State()), path).value, size))
    {
      r := CheckResize(path, size);
      if r.Err? { return; }
      var n := active[path];
      assert Faithful(cfg, State()) ==> Stored(cfg, blocks, n);
      hide Sound, Lawful, Covers, Faithful, Trash, Decode;
      if !Plain(n) {
        var existing := ReadFile(cfg, State(), path);
        if existing.Err? { return Err(existing.error); }
        r := WriteFile(path, Resize(existing.value, size));
        return;
      }
      if cfg.keepVersions && n.id !in blocks { return Err(Error.State); }
      ResizeBlockIsResize(RawOr(blocks, n.id), size);
      var outcome := ResizeBlock(RawOr(blocks, n.id), size);
      if outcome.Err? { return Err(outcome.error); }
      var now: nat := *;
      Put(n.(size := |outcome.value|, stamps := n.stamps.(modified := now, changed := now)), Some(outcome.value));
      r := Ok(());
    }

    /** Append, after unpacking a compressed or encrypted block once and for all. */
    method ExtendFile(path: Path, extra: Bytes) returns (r: Result<()>)
      requires Valid()
      modifies this`active, this`blocks, this`dirtyInodes
      ensures Valid()
      ensures r == Check(ExtendRefusal(cfg, old(State()), path))
      ensures r.Err? ==> State() == old(State())
      ensures r.Ok? ==> Rewritten(cfg, saved, old(State()), State(), path)
      ensures r.Ok? && ReadFile(cfg, old(State()), path).Ok? ==>
                ReadFile(cfg, State(), path) == Ok(ReadFile(cfg, old(State()), path).value + extra)
    {
      if path !in active { return Err(NotFound); }
      var n := active[path];
      if n.kind != File { return Err(InvalidInput); }
      var raw := RawOr(blocks, n.id);
      if !Plain(n) {
        var existing := ReadFile(cfg, State(), path);
        if existing.Err? { return Err(existing.error); }
        raw := existing.value;
      }
      var now: nat := *;
      assert raw + [] == raw;
      var m := n.(size := |raw + extra|, stamps := n.stamps.(modified := now, changed := now),
                  meta := n.meta.(compressed := false, encrypted := false));
      Put(m, if Plain(n) && extra == [] then None else Some(raw + extra));
      r := Ok(());
    }

    method ReadFileRange(path: Path, offset: nat, length: nat) returns (r: Result<Bytes>)
      ensures ReadFile(cfg, State(), path).Ok? ==>
                r == Ok(Slice(ReadFile(cfg, State(), path).value, offset, length))
      ensures ReadFile(cfg, State(), path).Err? ==> r == Err(ReadFile(cfg, State(), path).error)
    {
      if path !in active { return Err(NotFound); }
      var n := active[path];
      if !Plain(n) {
        var bytes := ReadFile(cfg, State(), path);
        if bytes.Err? { return Err(bytes.error); }
        var start := Min(offset, |bytes.value|);
        return Ok(bytes.value[start..Min(start + length, |bytes.value|)]);
      }
      if n.id !in blocks { return Err(Error.State); }
      var raw := blocks[n.id];
      if length == 0 || offset >= |raw| {
        assert Slice(raw, offset, length) == [];
        return Ok([]);
      }
      r := Ok(raw[offset..Min(offset + length, |raw|)]);
    }

    method DeleteFile(path: Path, secure: bool) returns (r: Result<()>)
      requires Valid()
      modifies this`active, this`deleted, this`recovery, this`blocks, this`recycled, this`dirtyInodes
      ensures Valid()
      ensures r == Check(DeleteRefusal(old(State()), path, secure))
      ensures path !in old(active) ==> State() == old(State())
      ensures path in old(active) && !secure ==> State() == Trashed(old(State()), path)
      ensures path in old(active) && secure ==> State() == Erased(old(State()), path)
      ensures path in old(active) ==> Deleted(cfg, saved, old(State()), State(), path)
    {
      if path !in active { return Err(NotFound); }
      if secure { r := SecureDelete(path); } else { SoftDelete(path); r := Ok(()); }
    }

    method SoftDelete(path: Path)
      requires Valid() && path in active
      modifies this`active, this`deleted, this`recovery, this`dirtyInodes
      ensures Valid() && State() == Trashed(old(State()), path)
      ensures Deleted(cfg, saved, old(State()), State(), path)
    {
      hide Sound, Lawful, Deleted;
      var n := active[path];
      TrashedKeeps(cfg, saved, State(), path);
      active := active - {path};
      recovery := recovery[path := n];
      deleted := deleted[path := n];
      dirtyInodes := dirtyInodes + {n.id};
      assert State() == Trashed(old(State()), path);
    }

    method SecureDelete(path: Path) returns (r: Result<()>)
      requires Valid() && path in active
      modifies this`active, this`deleted, this`recovery, this`blocks, this`recycled, this`dirtyInodes
      ensures Valid() && State() == Erased(old(State()), path)
      ensures Deleted(cfg, saved, old(State()), State(), path)
      ensures r == Check(DeleteRefusal(old(State()), path, true))
    {
      hide Sound, Lawful, Deleted;
      var n := active[path];
      ErasedKeeps(cfg, saved, State(), path);
      active, recovery, deleted := active - {path}, recovery - {path}, deleted - {path};
      if n.id !in blocks {
        assert State() == Erased(old(State()), path);
        return Err(Error.State);
      }
      blocks := blocks - {n.id};
      recycled := recycled + [n.id];
      dirtyInodes := dirtyInodes + {n.id};
      assert State() == Erased(old(State()), path);
      r := Ok(());
    }

    method RestoreFile(path: Path) returns (r: Result<()>)
      requires Valid()
      modifies this`active, this`deleted, this`recovery, this`dirtyInodes
      ensures Valid()
      ensures r == Check(if path in old(deleted) then None else Some(NotFound))
      ensures r.Err? ==> State() == old(State())
      ensures r.Ok? ==> State() == Revived(old(State()), path)
      ensures r.Ok? ==> Tree(cfg, State()) == Tree(cfg, old(State()))[path := Trash(cfg, old(State()))[path]]
      ensures Faithful(cfg, old(State())) ==> Faithful(cfg, State())
      ensures Covers(saved, old(State())) ==> Covers(saved, State())
    {
      ghost var v := State();
      if path !in recovery { return Err(NotFound); }
      var n := recovery[path];
      RevivedMoves(cfg, saved, v, path);
      MovesKeepSound(v, path);
      recovery := recovery - {path};
      deleted := deleted - {path};
      active := active[path := n];
      dirtyInodes := dirtyInodes + {n.id};
      assert State() == Revived(v, path);
      r := Ok(());
    }

    method ExpungeFile(path: Path) returns (r: Result<()>)
      requires Valid()
      modifies this`deleted, this`recovery, this`blocks, this`recycled
      ensures Valid()
      ensures r == Check(if path in old(deleted) then None else Some(NotFound))
      ensures r.Err? ==> State() == old(State())
      ensures r.Ok? ==> Tree(cfg, State()) == Tree(cfg, old(State()))
      ensures r.Ok? ==> Trash(cfg, State()) == Trash(cfg, old(State())) - {path}
      ensures r.Ok? ==> State() == Expunged(old(State()), path)
      ensures Faithful(cfg, old(State())) ==> Faithful(cfg, State())
      ensures Covers(saved, old(State())) ==> Covers(saved, State())
    {
      if path !in deleted { return Err(NotFound); }
      hide Lawful, Sound, Covers, Faithful, Tree, Trash;
      ghost var v := State();
      var id := deleted[path].id;
      deleted, recovery := deleted - {path}, recovery - {path};
      blocks, recycled := blocks - {id}, recycled + [id];
      assert State() == Expunged(v, path);
      hide Expunged;
      ExpungedKeeps(cfg, saved, v, path);
      r := Ok(());
    }

    /** The start of a checkpoint: from here on the saved bytes are those on the volume. */
    method TakeDirtyInodes() returns (taken: set<nat>)
      requires Valid()
      modifies this`dirtyInodes, this`saved
      ensures Valid()
      ensures taken == old(dirtyInodes) && State() == old(State()).(dirty := {})
      ensures saved == AllBlockBytes(State()) && Covers(saved, State())
      ensures Covers(old(saved), old(State())) ==>
                saved == Restrict((old(saved) - taken) + DirtyBlockBytes(old(State()), taken), active)
    {
      hide Lawful, Sound, Covers, Restrict, DirtyBlockBytes, AllBlockBytes;
      CleanAfterSave(saved, State());
      taken := dirtyInodes;
      saved := AllBlockBytes(State());
      dirtyInodes := {};
    }

    /** Changes what is given of owner and group and leaves everything else as it is. */
    method SetOwner(path: Path, uid: Option<nat>, gid: Option<nat>) returns (r: Result<()>)
      requires Valid()
      modifies this`active
      ensures Valid()
      ensures r == Check(if path in old(active) then None else Some(NotFound))
      ensures r.Err? ==> State() == old(State())
      ensures r.Ok? ==> Attributed(old(State()), State(), path)
      ensures r.Ok? ==>
                var was, now := old(active)[path].meta.attributes, active[path].meta.attributes;
                && now == was.(uid := GetOr(uid, was.uid), gid := GetOr(gid, was.gid))
                && Updated(cfg, saved, old(State()), State(), path, NodeOf(cfg, blocks, old(active)[path]))
    {
      hide Lawful, Sound, Updated, NodeOf;
      if path !in active { return Err(NotFound); }
      ghost var v := State();
      var n := active[path];
      var a := n.meta.attributes;
      var now: nat := *;
      var owned := a.(uid := GetOr(uid, a.uid), gid := GetOr(gid, a.gid));
      active := active[path := n.(stamps := n.stamps.(changed := now), meta := n.meta.(attributes := owned))];
      AttributedKeeps(cfg, saved, v, State(), path);
      r := Ok(());
    }

    method SetMode(path: Path, mode: bv32) returns (r: Result<()>)
      requires Valid()
      modifies this`active
      ensures Valid()
      ensures r == Check(if path in old(active) then None else Some(NotFound))
      ensures r.Err? ==> State() == old(State())
      ensures r.Ok? ==> Attributed(old(State()), State(), path)
      ensures r.Ok? ==>
                var was, now := old(active)[path].meta.attributes, active[path].meta.attributes;
                && now == was.(mode := Permissions(mode))
                && Updated(cfg, saved, old(State()), State(), path, NodeOf(cfg, blocks, old(active)[path]))
    {
      hide Lawful, Sound, Updated, NodeOf, Permissions;
      if path !in active { return Err(NotFound); }
      ghost var v := State();
      var n := active[path];
      var now: nat := *;
      active := active[path := n.(stamps := n.stamps.(changed := now),
                                  meta := n.meta.(attributes := n.meta.attributes.(mode := Permissions(mode))))];
      AttributedKeeps(cfg, saved, v, State(), path);
      r := Ok(());
    }

    /** The active paths in the subtree of `top`, in listing order. */
    method ListSubtree(top: Path) returns (paths: seq<Path>)
      ensures Ascending(Less, paths) && NoRepeats(paths)
      ensures forall p :: p in paths <==> p in active && InSubtree(top, p)
    {
      PathOrder();
      paths := Listing(Less, set p | p in active && InSubtree(top, p));
    }

    /** The loop of a rename is a sequence of single moves over the catalog that is left when a
        previous target has been soft-deleted; with nothing in the way it moves the whole subtree. */
    method RenameEntry(from: Path, to: Path) returns (r: Result<()>, ghost now: nat, ghost paths: seq<Path>)
      requires Valid()
      modifies this`active, this`deleted, this`recovery, this`dirtyInodes
      ensures Valid()
      ensures r == Check(if from in old(active) then None else Some(NotFound))
      ensures r.Err? ==> State() == old(State())
      ensures r.Ok? ==>
                var base := RenameBase(old(State()), to);
                var mv := SubtreeMoves(base.active, from, to);
                && Ascending(Less, paths) && (forall p :: p in paths <==> p in mv) && AllIn(mv, paths)
                && State() == base.(active := MoveAll(base.active, mv, now, paths))
                && (FreeInTurn(base.active, mv, paths) ==> Relocated(base.active, mv, now, active))
      ensures Faithful(cfg, old(State())) ==> Faithful(cfg, State())
      ensures Covers(saved, old(State())) ==> Covers(saved, State())
    {
      hide Sound, Lawful, Faithful, Covers, Relocated, FreeInTurn, Tree;
      now, paths := 0, [];
      if from !in active { return Err(NotFound), now, paths; }
      if to in active { SoftDelete(to); }
      ghost var base := State();
      assert base == RenameBase(old(State()), to);
      now, paths := MoveListed(from, to);
      SubtreeRelocates(base.active, from, to, now, paths);
      r := Ok(());
    }

    /** The loop of a rename. */
    method MoveListed(from: Path, to: Path) returns (ghost now: nat, ghost paths: seq<Path>)
      requires Valid()
      modifies this`active
      ensures Valid()
      ensures var mv := SubtreeMoves(old(active), from, to);
              && Ascending(Less, paths) && NoRepeats(paths) && (forall p :: p in paths <==> p in mv) && AllIn(mv, paths)
              && active == MoveAll(old(active), mv, now, paths)
      ensures Faithful(cfg, old(State())) ==> Faithful(cfg, State())
      ensures Covers(saved, old(State())) ==> Covers(saved, State())
    {
      hide Sound, Lawful, Faithful, Covers, Less, Ascending, NoRepeats, Tree;
      ghost var c, mv := active, SubtreeMoves(active, from, to);
      var oldPaths := ListSubtree(from);
      paths := oldPaths;
      forall k | 0 <= k < |paths| ensures paths[k] in mv { assert paths[k] in paths; }
      var time: nat := *;
      now := time;
      for i := 0 to |oldPaths|
        invariant AllIn(mv, paths[..i]) && active == MoveAll(c, mv, now, paths[..i])
      {
        var oldPath := oldPaths[i];
        NextMove(c, mv, now, paths, i);
        var newPath := to + oldPath[|from|..];
        if oldPath in active {
          var n := active[oldPath];
          active := active - {oldPath};
          active := active[newPath := At(n, newPath, time)];
        }
      }
      assert paths[..|paths|] == paths;
      MoveKeeps(cfg, saved, old(State()), State(), mv, now, paths);
    }

    method Release(id: nat)
      requires Valid() && Unused(State(), id) && id !in recycled && 0 < id <= nextInode
      modifies this`recycled
      ensures Valid() && State() == old(State()).(recycled := old(recycled) + [id])
    {
      RecycleSound(State(), id);
      recycled := recycled + [id];
      assert State() == old(State()).(recycled := old(recycled) + [id]);
    }

    /** A clone shows the same file at the new path, whether its block is shared or copied. Only the
        shared form forgets to mark the new inode dirty. */
    method CloneFile(from: Path, to: Path) returns (r: Result<()>)
      requires Valid()
      modifies this`active, this`blocks, this`dirtyInodes, this`nextInode, this`recycled
      ensures Valid()
      ensures r == Check(CloneRefusal(cfg, old(State()), from, to))
      ensures r.Err? ==> SameEntries(old(State()), State())
      ensures r.Ok? ==> Assigned(cfg, old(State()), State(), to, Tree(cfg, old(State()))[from])
      ensures r.Ok? ==> active[to].kind == File && active[to].id == NextId(old(State()))
      ensures r.Ok? ==> SameAllocator(State(), Allocated(old(State())))
      ensures r.Ok? && cfg.copyOnWrite ==> active[to].meta == old(active)[from].meta
      ensures r.Ok? && !cfg.copyOnWrite ==>
                active[to].meta.attributes ==
                DEFAULT_METADATA.attributes.(tags := old(active)[from].meta.attributes.tags)
      ensures r.Ok? && !cfg.copyOnWrite && Covers(saved, old(State())) ==> Covers(saved, State())
      ensures r.Ok? && cfg.copyOnWrite && Covers(saved, old(State())) ==>
                var id, source := NextId(old(State())), old(active)[from].id;
                Covers(saved, State()) <==>
                  id in old(dirtyInodes) || (id in saved && saved[id] == old(blocks)[source])
    {
      hide Lawful, Sound, Faithful, Covers;
      if !ValidPath(to) { return Err(InvalidInput); }
      if from !in active { return Err(NotFound); }
      var source := active[from];
      if source.kind != File { return Err(InvalidInput); }
      if to in active { return Err(AlreadyExists); }
      if cfg.copyOnWrite {
        r := ShareBlock(from, to);
      } else {
        var bytes := ReadFile(cfg, State(), from);
        if bytes.Err? { return Err(bytes.error); }
        r := CreateFile(to, bytes.value, source.meta.attributes.tags);
      }
    }

    method ShareBlock(from: Path, to: Path) returns (r: Result<()>)
      requires Valid() && to !in active && from in active && active[from].kind == File
      modifies this`active, this`blocks, this`nextInode, this`recycled
      ensures Valid()
      ensures r == Check(if !QuotaOk(cfg, old(State()), 1, old(active)[from].size) then Some(PolicyViolation)
                         else if old(active)[from].id !in old(blocks) then Some(Error.State) else None)
      ensures r.Err? ==> SameEntries(old(State()), State())
      ensures r.Ok? ==> Assigned(cfg, old(State()), State(), to, Tree(cfg, old(State()))[from])
      ensures r.Ok? ==> active[to].kind == File && active[to].id == NextId(old(State()))
      ensures r.Ok? ==> SameAllocator(State(), Allocated(old(State()))) && active[to].meta == old(active)[from].meta
      ensures r.Ok? && Covers(saved, old(State())) ==>
                var id := NextId(old(State()));
                Covers(saved, State()) <==>
                  id in old(dirtyInodes) || (id in saved && saved[id] == old(blocks)[old(active)[from].id])
    {
      hide Sound, Lawful, Covers, Faithful, Tree, Trash, Assigned, QuotaOk;
      var source := active[from];
      var ok := CheckQuota(1, source.size);
      if !ok { return Err(PolicyViolation); }
      var id := Allocate();
      if source.id !in blocks {
        Release(id);
        return Err(Error.State);
      }
      var now: nat := *;
      var target := Inode(id, File, to, source.size, Stamps(now, now, now), source.meta);
      blocks := blocks[id := blocks[source.id]];
      active := active[to := target];
      SharedPut(cfg, saved, old(State()), State(), from, target);
      r := Ok(());
    }

    /** One entry of a clone, made as its kind demands. */
    method CopyEntry(path: Path, target: Path) returns (r: Result<()>)
      requires Valid() && path in active
      modifies this`active, this`blocks, this`dirtyInodes, this`nextInode, this`recycled
      ensures Valid()
      ensures r.Err? ==> SameEntries(old(State()), State())
      ensures r.Ok? ==>
                target !in old(active)
                && Assigned(cfg, old(State()), State(), target, NodeOf(cfg, old(blocks), old(active)[path]))
      ensures r.Err? ==>
                !Unlimited(cfg) || !ValidPath(target) || target in old(active)
                || (old(active)[path].kind != Directory && ReadFile(cfg, old(State()), path).Err?)
    {
      hide Lawful, Sound, Covers, Faithful, Tree, Trash, Decode, QuotaOk, Assigned, ValidPath;
      TreeAt(cfg, State(), path);
      NoQuota(cfg, State());
      match active[path].kind {
        case Directory => r := CreateDirectory(target);
        case File => r := CloneFile(path, target);
        case Symlink =>
          var bytes := ReadFile(cfg, State(), path);
          if bytes.Err? { return Err(bytes.error); }
          r := CreateSymlink(target, bytes.value);
      }
    }

    method CloneEntry(path: Path, target: Path) returns (ok: bool)
      requires Valid() && path in active
      modifies this`active, this`blocks, this`dirtyInodes, this`nextInode, this`recycled
      ensures Valid()
      ensures Tree(cfg, old(State())).Keys == old(active).Keys
      ensures ok ==> Tree(cfg, State()) == Tree(cfg, old(State()))[target := Tree(cfg, old(State()))[path]]
      ensures ok ==> target !in Tree(cfg, old(State()))
      ensures !ok ==> Tree(cfg, State()) == Tree(cfg, old(State()))
      ensures Faithful(cfg, old(State())) ==> Faithful(cfg, State())
      ensures Unlimited(cfg) && Faithful(cfg, old(State())) && ValidPath(target) && target !in old(active) ==> ok
    {
      ghost var v := State();
      TreeKeys(cfg, v);
      TreeAt(cfg, v, path);
      ReadableEntry(cfg, v, path);
      hide Lawful, Sound, Covers, Faithful, Tree, Trash, NodeOf, ReadFile, ValidPath;
      var copied := CopyEntry(path, target);
      ok := copied.Ok?;
      if !ok { SameEntriesShow(cfg, v, State()); }
    }

    method CloneTree(from: Path, to: Path) returns (r: Result<CloneReport>, ghost paths: seq<Path>)
      requires Valid()
      modifies this`active, this`blocks, this`dirtyInodes, this`nextInode, this`recycled
      ensures Valid()
      ensures r.Err? <==> CloneTreeRefusal(old(State()), from, to).Some?
      ensures r.Err? ==> Some(r.error) == CloneTreeRefusal(old(State()), from, to) && State() == old(State())
      ensures Faithful(cfg, old(State())) ==> Faithful(cfg, State())
      ensures r.Ok? ==>
                var mv := SubtreeMoves(old(active), from, to);
                && Ascending(Less, paths) && (forall p :: p in paths <==> p in mv)
                && r.value.files + r.value.directories + |r.value.skipped| == |paths|
                && r.value.directories == |CopiedDirectories(old(active), mv, mv.Keys, Elements(r.value.skipped))|
                && Cloned(Tree(cfg, old(State())), Tree(cfg, State()), mv, mv.Keys, Elements(r.value.skipped))
                && (CloneFits(cfg, old(State()), mv) ==> r.value.skipped == [])
    {
      hide Lawful, Sound, Covers, Faithful, Tree, Cloned, CopiedDirectories, CloneFits, InSubtree;
      paths := [];
      var refusal := CloneTreeRefusal(State(), from, to);
      if refusal.Some? { return Err(refusal.value), paths; }
      var sources := ListSubtree(from);
      paths := sources;
      var report := CloneListed(sources, from, to);
      r := Ok(report);
      assert Elements(paths) == SubtreeMoves(old(active), from, to).Keys;
    }

    method CloneListed(sources: seq<Path>, from: Path, to: Path) returns (report: CloneReport)
      requires Valid() && NoRepeats(sources) && AllIn(SubtreeMoves(active, from, to), sources)
      modifies this`active, this`blocks, this`dirtyInodes, this`nextInode, this`recycled
      ensures Valid()
      ensures Faithful(cfg, old(State())) ==> Faithful(cfg, State())
      ensures report.files + report.directories + |report.skipped| == |sources|
      ensures var mv := SubtreeMoves(old(active), from, to);
              && report.directories == |CopiedDirectories(old(active), mv, Elements(sources), Elements(report.skipped))|
              && Cloned(Tree(cfg, old(State())), Tree(cfg, State()), mv, Elements(sources), Elements(report.skipped))
              && (CloneFits(cfg, old(State()), mv) ==> report.skipped == [])
    {
      hide Lawful, Sound, Covers, Faithful, Tree, Cloned, Targets, Injective, Elements, CopiedDirectories;
      report := CloneReport(0, 0, []);
      ghost var v, mv := State(), SubtreeMoves(active, from, to);
      SubtreeMovesInjective(active, from, to);
      NothingCloned(Tree(cfg, v), mv);
      NoElements();
      NoneCopied(v.active, mv);
      assert sources[..0] == [];
      for i := 0 to |sources|
        invariant Valid()
        invariant Faithful(cfg, v) ==> Faithful(cfg, State())
        invariant report.files + report.directories + |report.skipped| == i
        invariant report.directories ==
                  |CopiedDirectories(v.active, mv, Elements(sources[..i]), Elements(report.skipped))|
        invariant Cloned(Tree(cfg, v), Tree(cfg, State()), mv, Elements(sources[..i]), Elements(report.skipped))
        invariant Elements(report.skipped) <= Targets(mv, Elements(sources[..i]))
        invariant CloneFits(cfg, v, mv) ==> report.skipped == []
      {
        var path := sources[i];
        var target := to + path[|from|..];
        ghost var u := Tree(cfg, State());
        FreshElement(sources, i);
        BeforeCopy(cfg, v, State(), mv, Elements(sources[..i]), Elements(report.skipped), path);
        CopiedDirectoriesPush(v.active, mv, Elements(sources[..i]), Elements(report.skipped), path);
        var kind := active[path].kind;
        var ok := CloneEntry(path, target);
        ElementsPush(sources, i);
        if !ok {
          SkipOne(Tree(cfg, v), u, mv, Elements(sources[..i]), Elements(report.skipped), path);
          ElementsAppend(report.skipped, target);
          report := report.(skipped := report.skipped + [target]);
        } else {
          CopyOne(Tree(cfg, v), u, mv, Elements(sources[..i]), Elements(report.skipped), path);
          report := if kind == Directory then report.(directories := report.directories + 1)
                    else report.(files := report.files + 1);
        }
      }
      assert sources[..|sources|] == sources;
    }

    /** The active paths in scope, in listing order. */
    method ListScope(scope: Path) returns (paths: seq<Path>)
      ensures Ascending(Less, paths) && forall p :: p in paths <==> p in active && InScope(scope, p)
    {
      PathOrder();
      paths := Listing(Less, set p | p in active && InScope(scope, p));
    }

    method CreateSnapshotScoped(name: string, scope: Path) returns (s: Snapshot)
      modifies this`snapshots, this`nextSnapshotId
      ensures nextSnapshotId == old(nextSnapshotId) + 1 && snapshots == old(snapshots) + [s]
      ensures s.id == nextSnapshotId && s.name == name && s.scope == scope
      ensures Captures(cfg, State(), s)
      ensures Ascending(Less, s.paths) && forall p :: p in s.paths <==> p in s.inodes
    {
      hide InScope, Less, Content, CapturedAmong, Captures, Ascending;
      nextSnapshotId := nextSnapshotId + 1;
      var paths := ListScope(scope);
      var fileData: map<Path, Bytes>, inodes: map<Path, SnapshotInode> := map[], map[];
      NothingCaptured(cfg, State());
      for i := 0 to |paths|
        invariant nextSnapshotId == old(nextSnapshotId) + 1 && snapshots == old(snapshots)
        invariant CapturedAmong(cfg, State(), paths[..i], fileData, inodes)
      {
        var path := paths[i];
        assert path in paths && paths[..i + 1] == paths[..i] + [path];
        CaptureStep(cfg, State(), paths[..i], fileData, inodes, path);
        var n := active[path];
        var bytes := ReadFile(cfg, State(), path);
        match n.kind {
          case File =>
            if bytes.Ok? { fileData := fileData[path := bytes.value]; }
            inodes := inodes[path := SnapshotInode(File, n.size, n.stamps, n.meta, None)];
          case Symlink =>
            var target := if bytes.Ok? then Some(bytes.value) else None;
            inodes := inodes[path := SnapshotInode(Symlink, n.size, n.stamps, n.meta, target)];
          case Directory =>
            inodes := inodes[path := SnapshotInode(Directory, n.size, n.stamps, n.meta, None)];
        }
      }
      assert paths[..|paths|] == paths;
      s := Snapshot(nextSnapshotId, name, scope, paths, fileData, inodes);
      AllCaptured(cfg, State(), s);
      snapshots := snapshots + [s];
    }

    /** Make an entry of the right kind stand at the path, with the captured bytes if it is a file. */
    method EnsureEntry(s: Snapshot, path: Path) returns (r: Result<()>)
      requires Valid() && path in s.inodes
      modifies this`active, this`blocks, this`dirtyInodes, this`nextInode, this`recycled
      ensures Valid()
      ensures r.Err? ==> SameEntries(old(State()), State())
      ensures r.Ok? ==> Ensured(cfg, old(State()), State(), s, path)
      ensures r.Ok? ==> Updated(cfg, saved, old(State()), State(), path, NodeOf(cfg, blocks, active[path]))
      ensures AllocatorStep(old(State()), State(), path)
      ensures Refused(old(State()), s, path) ==> r.Err?
      ensures Unlimited(cfg) && !Refused(old(State()), s, path) ==> r.Ok?
    {
      hide Lawful, Sound, Covers;
      var si := s.inodes[path];
      if path in active && active[path].kind != si.kind { return Err(InvalidInput); }
      match si.kind {
        case Directory =>
          if path in active { r := Ok(()); } else { r := CreateDirectory(path); }
        case Symlink =>
          if path in active { r := Ok(()); } else {
            r := CreateSymlink(path, GetOr(si.target, []));
            if r.Ok? { assert Tree(cfg, State())[path] == Link(Some(GetOr(si.target, []))); }
          }
        case File =>
          if path in active { r := WriteFile(path, DataOf(s, path)); }
          else { r := CreateFile(path, DataOf(s, path), []); }
      }
      if r.Ok? { assert Tree(cfg, State())[path] == NodeOf(cfg, blocks, active[path]); }
      if r.Ok? && old(State()) == State() {
        assert Tree(cfg, State())[path := Tree(cfg, State())[path]] == Tree(cfg, State());
      }
    }

    method RestoreEntry(s: Snapshot, path: Path) returns (ok: bool)
      requires Valid() && path in s.inodes
      modifies this`active, this`blocks, this`dirtyInodes, this`nextInode, this`recycled
      ensures Valid()
      ensures ok ==> Restored(cfg, State(), s, path) && LinkRestored(cfg, old(State()), State(), s, path)
      ensures !ok ==> SameAt(cfg, old(State()), State(), path)
      ensures forall q :: q != path ==> SameAt(cfg, old(State()), State(), q)
      ensures AllocatorStep(old(State()), State(), path)
      ensures Refused(old(State()), s, path) ==> !ok
      ensures ok ==> !Obstructed(old(State()), s, path)
      ensures Unlimited(cfg) && !Refused(old(State()), s, path) ==> ok
      ensures Faithful(cfg, old(State())) && Fits(cfg, s, path) ==> Faithful(cfg, State())
      ensures Covers(saved, old(State())) ==> Covers(saved, State())
    {
      hide Lawful, Sound, Covers, Tree, Faithful, Stored, Restored, LinkRestored, SameAt, Updated, Refused, Fits;
      var r := EnsureEntry(s, path);
      ok := r.Ok?;
      if ok {
        ghost var w := State();
        var si := s.inodes[path];
        var n := active[path].(meta := si.meta, stamps := si.stamps);
        active := active[path := n];
        ghost var x := State();
        UpdatedKeeps(cfg, saved, old(State()), w, path);
        RelabelRestores(cfg, old(State()), w, x, s, path);
        RelabelKeeps(cfg, saved, w, x, path);
        forall q | q != path ensures SameAt(cfg, old(State()), State(), q) {
          UpdatedElsewhere(cfg, saved, old(State()), w, path, q);
          RelabelElsewhere(cfg, w, State(), path, q);
          SameAtTransitive(cfg, old(State()), w, State(), q);
        }
      } else {
        AllocationKeeps(cfg, saved, old(State()), State());
        forall q ensures SameAt(cfg, old(State()), State(), q) { UnchangedIsSame(cfg, old(State()), State(), q); }
      }
    }

    method RestoreSnapshot(id: nat) returns (r: Result<RestoreReport>, ghost listing: seq<Path>)
      requires Valid()
      modifies this`active, this`blocks, this`dirtyInodes, this`nextInode, this`recycled
      ensures Valid()
      ensures r.Err? <==> Find(snapshots, id).None?
      ensures r.Err? ==> r.error == NotFound && State() == old(State())
      ensures r.Ok? ==>
                var s, skipped := Find(snapshots, id).value, Elements(r.value.skipped);
                && Placed(cfg, old(State()), State(), s, s.inodes.Keys, skipped)
                && Accounted(cfg, old(State()), s, s.inodes.Keys, skipped, r.value.restoredFiles)
                && (Faithful(cfg, old(State())) && (forall p :: p in s.inodes ==> Fits(cfg, s, p)) ==>
                      Faithful(cfg, State()))
      ensures Covers(saved, old(State())) ==> Covers(saved, State())
      ensures r.Ok? ==> Ascending(Less, r.value.skipped)
      ensures r.Ok? ==>
                Ascending(Less, listing) && Elements(listing) == Find(snapshots, id).value.inodes.Keys
                && MadeInOrder(old(State()), State(), listing)
    {
      listing := [];
      var found := Find(snapshots, id);
      if found.None? { return Err(NotFound), []; }
      var report: RestoreReport;
      report, listing := RestoreListed(found.value);
      r := Ok(report);
    }

    method RestoreListed(s: Snapshot) returns (report: RestoreReport, ghost listing: seq<Path>)
      requires Valid()
      modifies this`active, this`blocks, this`dirtyInodes, this`nextInode, this`recycled
      ensures Valid()
      ensures Placed(cfg, old(State()), State(), s, s.inodes.Keys, Elements(report.skipped))
      ensures Accounted(cfg, old(State()), s, s.inodes.Keys, Elements(report.skipped), report.restoredFiles)
      ensures Ascending(Less, report.skipped)
      ensures Ascending(Less, listing) && Elements(listing) == s.inodes.Keys
      ensures MadeInOrder(old(State()), State(), listing)
      ensures Faithful(cfg, old(State())) && (forall p :: p in s.inodes ==> Fits(cfg, s, p)) ==> Faithful(cfg, State())
      ensures Covers(saved, old(State())) ==> Covers(saved, State())
    {
      hide Lawful, Sound, Faithful, Covers, Tree, Restored, Elements, SameAt, Fits, Placed, Accounted, Refused,
        Less, Ascending, MadeInOrder, AllocatorStep;
      report := RestoreReport(0, []);
      ghost var v := State();
      var paths := ListSnapshotKeys(s);
      listing := paths;
      NothingMade(v);
      NothingRestored(cfg, v, s);
      NoElements();
      assert paths[..0] == [];
      for i := 0 to |paths|
        invariant Valid()
        invariant Placed(cfg, v, State(), s, Elements(paths[..i]), Elements(report.skipped))
        invariant Accounted(cfg, v, s, Elements(paths[..i]), Elements(report.skipped), report.restoredFiles)
        invariant Ascending(Less, report.skipped) && MadeInOrder(v, State(), paths[..i])
        invariant Faithful(cfg, v) && (forall p :: p in s.inodes ==> Fits(cfg, s, p)) ==> Faithful(cfg, State())
        invariant Covers(saved, v) ==> Covers(saved, State())
      {
        var path := paths[i];
        ghost var w, done, skipped := State(), Elements(paths[..i]), Elements(report.skipped);
        FreshElement(paths, i);
        ElementsPush(paths, i);
        var ok := RestoreEntry(s, path);
        PlacedSame(cfg, v, w, s, done, skipped, path);
        MadeStep(cfg, v, w, State(), paths, i);
        PickedInOrder(paths, i, report.skipped);
        PlacedStep(cfg, v, w, State(), s, done, skipped, path, ok);
        AccountedStep(cfg, v, s, done, skipped, report.restoredFiles, path, ok);
        if ok {
          if s.inodes[path].kind == File {
            report := report.(restoredFiles := report.restoredFiles + 1);
          }
        } else {
          ElementsAppend(report.skipped, path);
          report := report.(skipped := report.skipped + [path]);
        }
      }
      assert paths[..|paths|] == paths;
    }

    method ListSnapshotKeys(s: Snapshot) returns (paths: seq<Path>)
      ensures Ascending(Less, paths) && NoRepeats(paths) && Elements(paths) == s.inodes.Keys
      ensures forall i :: 0 <= i < |paths| ==> paths[i] in s.inodes
    {
      PathOrder();
      paths := Listing(Less, s.inodes.Keys);
      forall i | 0 <= i < |paths| ensures paths[i] in s.inodes { assert paths[i] in paths; }
    }

    method ReconcileFromJournal(entries: seq<Entry>)
      requires Valid()
      modifies this`active, this`deleted, this`recovery, this`nextSnapshotId
      ensures Valid() && State() == Reconciled(old(State()), ReplayAll(entries))
      ensures Covers(saved, old(State())) ==>
                (Covers(saved, State()) <==> RevivedSaved(saved, old(State()), ReplayAll(entries)))
      ensures Faithful(cfg, old(State())) ==> Faithful(cfg, State())
      ensures nextSnapshotId == Max(old(nextSnapshotId), ReplayAll(entries).snapshots)
    {
      hide Sound, Lawful, Faithful, Covers, RevivedSaved, AfterFirst, AfterSecond, Reconciled, ReplayAll;
      var replay := ReplayAll(entries);
      ReconciledKeeps(cfg, saved, State(), replay);
      BothPasses(State(), replay);
      BuryDeleted(replay);
      ReviveActive(replay);
      if nextSnapshotId < replay.snapshots { nextSnapshotId := replay.snapshots; }
    }

    /** The first pass: active paths the journal knows as deleted. */
    method BuryDeleted(replay: Replay)
      requires recovery == deleted
      modifies this`active, this`deleted, this`recovery
      ensures State() == AfterFirst(old(State()), replay, old(active).Keys) && recovery == deleted
    {
      hide AfterFirst, Elements;
      NoElements();
      var paths := ListKeys(active);
      FirstEmpty(State(), replay);
      for i := 0 to |paths|
        invariant State() == AfterFirst(old(State()), replay, Elements(paths[..i]))
      {
        var path := paths[i];
        ElementsPush(paths, i);
        FreshElement(paths, i);
        FirstStep(old(State()), replay, Elements(paths[..i]), path);
        if path in replay.deleted && path in active {
          var inode := active[path];
          active := active - {path};
          deleted := deleted[path := inode];
          recovery := recovery[path := inode];
        }
      }
      assert paths[..|paths|] == paths;
    }

    /** The second pass: deleted paths the journal knows as active or does not know at all. */
    method ReviveActive(replay: Replay)
      requires recovery == deleted
      modifies this`active, this`deleted, this`recovery
      ensures State() == AfterSecond(old(State()), replay, old(deleted).Keys)
    {
      hide AfterSecond, Elements;
      NoElements();
      var paths := ListKeys(deleted);
      SecondEmpty(State(), replay);
      for i := 0 to |paths|
        invariant State() == AfterSecond(old(State()), replay, Elements(paths[..i]))
      {
        var path := paths[i];
        ElementsPush(paths, i);
        FreshElement(paths, i);
        SecondStep(old(State()), replay, Elements(paths[..i]), path);
        if path in replay.active {
          if path in deleted {
            var inode := deleted[path];
            deleted := deleted - {path};
            recovery := recovery - {path};
            active := active[path := inode];
          }
        } else if path !in replay.deleted {
          deleted := deleted - {path};
          recovery := recovery - {path};
        }
      }
      assert paths[..|paths|] == paths;
    }

    method ListKeys(c: Catalog) returns (paths: seq<Path>)
      ensures Ascending(Less, paths) && NoRepeats(paths) && Elements(paths) == c.Keys
      ensures forall i :: 0 <= i < |paths| ==> paths[i] in c
    {
      PathOrder();
      paths := Listing(Less, c.Keys);
      forall i | 0 <= i < |paths| ensures paths[i] in c { assert paths[i] in paths; }
    }
  }
}
