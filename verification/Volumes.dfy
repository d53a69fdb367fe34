/** Byte-level storage: the content pipeline and the block store's contract. */
module Storage {
  import opened ByteStrings
  import opened Wrappers

  /** Compression and encryption. Encryption draws a fresh nonce for every call. */
  datatype Codec = Codec(
    compress: Bytes -> Bytes,
    decompress: Bytes -> Option<Bytes>,
    encrypt: (nat, Bytes) -> Bytes,
    decrypt: Bytes -> Option<Bytes>)

  ghost predicate Lawful(c: Codec) {
    && (forall b :: c.decompress(c.compress(b)) == Some(b))
    && (forall nonce, b :: c.decrypt(c.encrypt(nonce, b)) == Some(b))
    // nonce and authentication tag make a ciphertext longer than its plaintext
    && (forall nonce, b :: |c.encrypt(nonce, b)| == |b| + 28)
    && (forall b :: c.decrypt(b).Some? ==> |b| == |c.decrypt(b).value| + 28)
  }

  datatype Config = Config(
    compressionEnabled: bool,
    encryptionAtRest: bool,
    hasKey: bool,
    copyOnWrite: bool,
    keepVersions: bool,
    maxFiles: Option<nat>,
    maxBytes: Option<nat>,
    codec: Codec)

  /** No quota can refuse anything. */
  predicate Unlimited(cfg: Config) { cfg.maxFiles.None? && cfg.maxBytes.None? }

  const MIN_COMPRESS_BYTES: nat := 64
  const MAX_RMW_BYTES: nat := 16 * 1024 * 1024
  const U64_MAX: nat := 0xFFFF_FFFF_FFFF_FFFF

  predicate CompressNow(cfg: Config, bytes: Bytes) {
    cfg.compressionEnabled && |bytes| >= MIN_COMPRESS_BYTES
  }

  predicate EncryptNow(cfg: Config) { cfg.encryptionAtRest && cfg.hasKey }

  /** What `write_file` stores for `bytes`: compressed first, then encrypted. */
  function Encode(cfg: Config, nonce: nat, bytes: Bytes): Bytes {
    var packed := if CompressNow(cfg, bytes) then cfg.codec.compress(bytes) else bytes;
    if EncryptNow(cfg) then cfg.codec.encrypt(nonce, packed) else packed
  }

  /** What `read_file` makes of a stored block under an inode's flags. */
  function Decode(cfg: Config, compressed: bool, encrypted: bool, raw: Bytes): Option<Bytes> {
    var plain := if !encrypted then Some(raw) else if cfg.hasKey then cfg.codec.decrypt(raw) else None;
    match plain
    case None => None
    case Some(b) => if compressed then cfg.codec.decompress(b) else Some(b)
  }

  /** Reading under the flags of the write gives the bytes back. */
  lemma DecodeEncode(cfg: Config, nonce: nat, bytes: Bytes)
    requires Lawful(cfg.codec)
    ensures Decode(cfg, CompressNow(cfg, bytes), EncryptNow(cfg), Encode(cfg, nonce, bytes)) == Some(bytes)
  {
    var packed := if CompressNow(cfg, bytes) then cfg.codec.compress(bytes) else bytes;
    assert cfg.codec.decrypt(cfg.codec.encrypt(nonce, packed)) == Some(packed);
  }

  /** Reading bytes too short to be compressed under other flags: it works exactly when the
      encryption flag is the one of the write. */
  lemma DecodeOtherFlags(cfg: Config, nonce: nat, bytes: Bytes, encrypted: bool)
    requires Lawful(cfg.codec) && !CompressNow(cfg, bytes)
    ensures Decode(cfg, false, encrypted, Encode(cfg, nonce, bytes)) == Some(bytes)
      <==> encrypted == EncryptNow(cfg)
  {
    DecodeEncode(cfg, nonce, bytes);
    assert |cfg.codec.encrypt(nonce, bytes)| == |bytes| + 28;
    assert cfg.codec.decrypt(bytes).Some? ==> |bytes| == |cfg.codec.decrypt(bytes).value| + 28;
  }

  /** A block that reads uncompressed under the encryption of the write reads the same under another
      encryption flag exactly when that is the same one. */
  lemma OtherEncryption(cfg: Config, raw: Bytes, bytes: Bytes, encrypted: bool)
    requires Lawful(cfg.codec) && Decode(cfg, false, EncryptNow(cfg), raw) == Some(bytes)
    ensures Decode(cfg, false, encrypted, raw) == Some(bytes) <==> encrypted == EncryptNow(cfg)
  {
    assert cfg.codec.decrypt(raw).Some? ==> |raw| == |cfg.codec.decrypt(raw).value| + 28;
  }

  /** A block without record reads as no bytes on the write paths. */
  function RawOr(blocks: map<nat, Bytes>, id: nat): Bytes { if id in blocks then blocks[id] else [] }

  datatype RangeWrite = RangeWrite(raw: Bytes, changed: bool)

  /** `write_range_report` on an existing record: append, full overwrite, whole-file fallback
      with its size limit, or in-place patch. */
  function WriteRange(raw: Bytes, offset: nat, data: Bytes): Result<RangeWrite> {
    var end := offset + |data|;
    if data == [] then Ok(RangeWrite(raw, false))
    else if offset == |raw| then Ok(RangeWrite(raw + data, true))
    else if offset == 0 && end >= |raw| then Ok(RangeWrite(data, true))
    else if offset > |raw| || end > |raw| then
      if end > MAX_RMW_BYTES then Err(InvalidInput)
      else Ok(RangeWrite(Resize(raw, end)[..offset] + data, true))
    else
      var patched := raw[..offset] + data + raw[end..];
      Ok(RangeWrite(patched, patched != raw))
  }

  /** `resize_inode`: grow by appending zeros, shrink by rewriting a bounded prefix. */
  function ResizeBlock(raw: Bytes, size: nat): Result<Bytes> {
    if size == |raw| then Ok(raw)
    else if size > |raw| then Ok(raw + Zeros(size - |raw|))
    else if size > MAX_RMW_BYTES then Err(InvalidInput)
    else Ok(raw[..size])
  }

  /** An append is the splice at the end. */
  lemma AppendIsSplice(raw: Bytes, data: Bytes)
    ensures raw + data == Splice(raw, |raw|, data)
  {
    SpliceAtEnd(raw, data);
  }

  /** A full overwrite is the splice at the start. */
  lemma OverwriteIsSplice(raw: Bytes, data: Bytes)
    requires |data| >= |raw|
    ensures data == Splice(raw, 0, data)
  {
    SpliceAt(raw, 0, data);
    hide Splice;
    assert Splice(raw, 0, data) == data;
  }

  /** The fallback writes behind the end of a block grown to the new size. */
  lemma FallbackIsSplice(raw: Bytes, offset: nat, data: Bytes)
    requires offset + |data| > |raw|
    ensures Resize(raw, offset + |data|)[..offset] + data == Splice(raw, offset, data)
  {
    assert Max(|raw|, offset + |data|) == offset + |data|;
  }

  /** A patch stays inside the block. */
  lemma PatchIsSplice(raw: Bytes, offset: nat, data: Bytes)
    requires offset + |data| <= |raw|
    ensures raw[..offset] + data + raw[offset + |data|..] == Splice(raw, offset, data)
  {
    assert Resize(raw, |raw|) == raw;
  }

  /** All branches of a range write compute the same splice; only an empty write past the end
      is dropped instead of extending the file. */
  lemma WriteRangeIsSplice(raw: Bytes, offset: nat, data: Bytes)
    ensures var r := WriteRange(raw, offset, data);
            && (r.Ok? && (data != [] || offset <= |raw|) ==> r.value.raw == Splice(raw, offset, data))
            && (data == [] ==> r == Ok(RangeWrite(raw, false)))
            && (r.Ok? && !r.value.changed ==> r.value.raw == raw)
    ensures WriteRange(raw, offset, data).Err? <==>
              data != [] && offset != |raw| && (offset != 0 || offset + |data| < |raw|)
              && offset + |data| > |raw| && offset + |data| > MAX_RMW_BYTES
  {
    hide Splice, Resize;
    SpliceNothing(raw, offset);
    AppendIsSplice(raw, data);
    if |data| >= |raw| { OverwriteIsSplice(raw, data); }
    if offset + |data| > |raw| { FallbackIsSplice(raw, offset, data); } else { PatchIsSplice(raw, offset, data); }
  }

  /** Growing keeps all bytes and adds zeros, shrinking keeps the first ones; only a kept part above
      the size limit is refused. */
  lemma ResizeBlockIsResize(raw: Bytes, size: nat)
    ensures ResizeBlock(raw, size).Err? <==> MAX_RMW_BYTES < size < |raw|
    ensures ResizeBlock(raw, size).Ok? ==>
              var r := ResizeBlock(raw, size).value;
              && |r| == size && r == Resize(raw, size)
              && forall i :: 0 <= i < size ==> r[i] == if i < |raw| then raw[i] else 0
  {
  }
}

/** The persistent state of a volume, its invariant, and what its files contain. */
module Volumes {
  import opened ByteStrings
  import opened Wrappers
  import opened Storage
  import opened Paths

  datatype Kind = File | Directory | Symlink

  datatype Attributes = Attributes(mode: nat, uid: nat, gid: nat, tags: seq<string>)

  datatype Metadata = Metadata(compressed: bool, encrypted: bool, attributes: Attributes)

  datatype Stamps = Stamps(created: nat, modified: nat, changed: nat)

  datatype Inode = Inode(id: nat, kind: Kind, path: Path, size: nat, stamps: Stamps, meta: Metadata)

  type Catalog = map<Path, Inode>

  datatype Volume = Volume(
    active: Catalog,
    deleted: Catalog,
    recovery: Catalog,
    blocks: map<nat, Bytes>,
    nextInode: nat,
    recycled: seq<nat>,
    dirty: set<nat>)

  const DEFAULT_METADATA := Metadata(false, false, Attributes(420, 0, 0, []))

  // ----- contents -----

  /** The decoded content of an inode, or None when it cannot be read. */
  function Content(cfg: Config, blocks: map<nat, Bytes>, n: Inode): Option<Bytes> {
    if n.id in blocks then Decode(cfg, n.meta.compressed, n.meta.encrypted, blocks[n.id]) else None
  }

  function ReadFile(cfg: Config, v: Volume, path: Path): Result<Bytes> {
    if path !in v.active then Err(NotFound)
    else match Content(cfg, v.blocks, v.active[path])
         case Some(b) => Ok(b)
         case None => Err(State)
  }

  /** What a user sees at a path. */
  datatype Node = Dir | Regular(content: Option<Bytes>) | Link(target: Option<Bytes>)

  function NodeOf(cfg: Config, blocks: map<nat, Bytes>, n: Inode): Node {
    match n.kind
    case Directory => Dir
    case File => Regular(Content(cfg, blocks, n))
    case Symlink => Link(Content(cfg, blocks, n))
  }

  function View(cfg: Config, blocks: map<nat, Bytes>, c: Catalog): map<Path, Node> {
    map p | p in c :: NodeOf(cfg, blocks, c[p])
  }

  /** The visible tree. */
  function Tree(cfg: Config, v: Volume): map<Path, Node> { View(cfg, v.blocks, v.active) }

  lemma TreeKeys(cfg: Config, v: Volume)
    ensures Tree(cfg, v).Keys == v.active.Keys
  {
  }

  /** The recoverable deleted entries. */
  function Trash(cfg: Config, v: Volume): map<Path, Node> { View(cfg, v.blocks, v.deleted) }

  // ----- invariants -----

  ghost predicate Keyed(c: Catalog) { forall p :: p in c ==> c[p].path == p }

  ghost predicate DistinctIds(c: Catalog) {
    forall p, q :: p in c && q in c && c[p].id == c[q].id ==> p == q
  }

  ghost predicate Lacks(c: Catalog, id: nat) { forall p :: p in c ==> c[p].id != id }

  ghost predicate Owns(c: Catalog, id: nat) { !Lacks(c, id) }

  ghost predicate Unused(v: Volume, id: nat) { Lacks(v.active, id) && Lacks(v.deleted, id) }

  /** Ids identify: no two entries, active or deleted, share one, and none waits for reuse. */
  ghost predicate Sound(v: Volume) {
    && Keyed(v.active) && Keyed(v.deleted)
    && DistinctIds(v.active) && DistinctIds(v.deleted)
    && (forall p, q :: p in v.active && q in v.deleted ==> v.active[p].id != v.deleted[q].id)
    && (forall p :: p in v.active ==> 0 < v.active[p].id <= v.nextInode)
    && (forall p :: p in v.deleted ==> 0 < v.deleted[p].id <= v.nextInode)
    && (forall i :: 0 <= i < |v.recycled| ==> 0 < v.recycled[i] <= v.nextInode && Unused(v, v.recycled[i]))
    && (forall i, j :: 0 <= i < j < |v.recycled| ==> v.recycled[i] != v.recycled[j])
    && v.recovery == v.deleted
  }

  /** The block of an inode decodes under the inode's own flags to as many bytes as its size says. */
  ghost predicate Stored(cfg: Config, blocks: map<nat, Bytes>, n: Inode) {
    && (n.kind != Directory ==>
          Content(cfg, blocks, n).Some? && |Content(cfg, blocks, n).value| == n.size)
    && (n.kind == Symlink ==> !n.meta.compressed && !n.meta.encrypted)
  }

  ghost predicate AllStored(cfg: Config, blocks: map<nat, Bytes>, c: Catalog) {
    forall p :: p in c ==> Stored(cfg, blocks, c[p])
  }

  /** Every entry can be read back, the deleted ones included. */
  ghost predicate Faithful(cfg: Config, v: Volume) {
    AllStored(cfg, v.blocks, v.active) && AllStored(cfg, v.blocks, v.deleted)
  }

  // ----- checkpoints -----

  /** The raw blocks of the active entries, as persisted by a checkpoint. */
  ghost function AllBlockBytes(v: Volume): map<nat, Bytes> {
    map id | id in v.blocks && Owns(v.active, id) :: v.blocks[id]
  }

  ghost function DirtyBlockBytes(v: Volume, dirty: set<nat>): map<nat, Bytes> {
    map id | id in v.blocks && Owns(v.active, id) && id in dirty :: v.blocks[id]
  }

  /** Outside of the dirty set, the bytes of the last checkpoint are still the bytes on the volume. */
  ghost predicate Covers(saved: map<nat, Bytes>, v: Volume) {
    forall p :: p in v.active && v.active[p].id !in v.dirty ==>
      var id := v.active[p].id;
      (id in saved <==> id in v.blocks) && (id in v.blocks ==> saved[id] == v.blocks[id])
  }

  ghost function Restrict(m: map<nat, Bytes>, c: Catalog): map<nat, Bytes> {
    map id | id in m && Owns(c, id) :: m[id]
  }

  /** An incremental checkpoint is a full one: dropping the dirty inodes from the saved bytes and
      adding their current blocks gives the blocks of all active inodes. */
  lemma IncrementalCheckpoint(saved: map<nat, Bytes>, v: Volume)
    requires Covers(saved, v)
    ensures Restrict((saved - v.dirty) + DirtyBlockBytes(v, v.dirty), v.active) == AllBlockBytes(v)
  {
    var overlay := Restrict((saved - v.dirty) + DirtyBlockBytes(v, v.dirty), v.active);
    forall id ensures id in overlay <==> id in AllBlockBytes(v)
              ensures id in overlay ==> overlay[id] == AllBlockBytes(v)[id]
    {
      if Owns(v.active, id) {
        var p :| p in v.active && v.active[p].id == id;
      }
    }
  }

  lemma CleanAfterSave(saved: map<nat, Bytes>, v: Volume)
    ensures Covers(saved, v) ==>
              AllBlockBytes(v) == Restrict((saved - v.dirty) + DirtyBlockBytes(v, v.dirty), v.active)
    ensures AllBlockBytes(v.(dirty := {})) == AllBlockBytes(v)
    ensures Covers(AllBlockBytes(v), v.(dirty := {})) && (Sound(v) ==> Sound(v.(dirty := {})))
  {
    if Covers(saved, v) { IncrementalCheckpoint(saved, v); }
    if Sound(v) {
      forall i | 0 <= i < |v.recycled| ensures Unused(v.(dirty := {}), v.recycled[i]) {
        assert Unused(v, v.recycled[i]);
      }
    }
  }

  /** Only adding, without dropping first, is the same exactly when no dirty inode that owns no
      block any more has saved bytes: an id recycled for a directory would keep the old file's. */
  lemma OverlayWithoutDropping(saved: map<nat, Bytes>, v: Volume)
    requires Covers(saved, v)
    ensures Restrict(saved + DirtyBlockBytes(v, v.dirty), v.active) == AllBlockBytes(v)
      <==> forall p :: p in v.active && v.active[p].id in v.dirty && v.active[p].id in saved ==>
             v.active[p].id in v.blocks
  {
    var overlay := Restrict(saved + DirtyBlockBytes(v, v.dirty), v.active);
    if forall p :: p in v.active && v.active[p].id in v.dirty && v.active[p].id in saved ==>
         v.active[p].id in v.blocks
    {
      forall id ensures id in overlay <==> id in AllBlockBytes(v)
                ensures id in overlay ==> overlay[id] == AllBlockBytes(v)[id]
      {
        if Owns(v.active, id) {
          var p :| p in v.active && v.active[p].id == id;
        }
      }
    } else {
      var p :| p in v.active && v.active[p].id in v.dirty && v.active[p].id in saved
               && v.active[p].id !in v.blocks;
      assert v.active[p].id in overlay && v.active[p].id !in AllBlockBytes(v);
    }
  }

  // ----- quota -----

  ghost function NonDirectories(c: Catalog): (s: set<Path>)
    ensures s <= c.Keys
  {
    set p | p in c && c[p].kind != Directory
  }

  ghost function FileCount(c: Catalog): nat { |NonDirectories(c)| }

  function Weight(n: Inode): nat { if n.kind == Directory then 0 else n.size }

  ghost function TotalSize(c: Catalog): nat
    decreases |c|
  {
    if c == map[] then 0 else
      var p :| p in c;
      Weight(c[p]) + TotalSize(c - {p})
  }

  lemma {:induction false} TotalSizeSplit(c: Catalog, p: Path)
    requires p in c
    ensures TotalSize(c) == Weight(c[p]) + TotalSize(c - {p})
    decreases |c|
  {
    var q :| q in c && TotalSize(c) == Weight(c[q]) + TotalSize(c - {q});
    if p == q {
    } else {
      TotalSizeSplit(c - {q}, p);
      TotalSizeSplit(c - {p}, q);
      assert c - {q} - {p} == c - {p} - {q};
    }
  }

  predicate Within(limit: Option<nat>, n: nat) { limit.Some? ==> n <= limit.value }

  ghost predicate QuotaOk(cfg: Config, v: Volume, newFiles: nat, newBytes: nat) {
    && Within(cfg.maxFiles, FileCount(v.active) + newFiles)
    && Within(cfg.maxBytes, TotalSize(v.active) + newBytes)
  }

  predicate ValidPath(p: Path) { p != "" && p[0] == '/' && |p| <= 16384 }
}
