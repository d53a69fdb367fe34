/** The consistency check over catalog and blocks. */
module Integrity {
  import opened ByteStrings
  import opened Wrappers
  import opened Sorting
  import opened Paths
  import opened Storage
  import opened Volumes

  datatype SizeMismatch = SizeMismatch(path: Path, recorded: nat, found: nat)

  datatype FsckReport = FsckReport(
    checkedInodes: nat,
    validInodes: nat,
    orphanedBlocks: seq<nat>,
    missingBlocks: seq<Path>,
    sizeMismatches: seq<SizeMismatch>,
    compressionErrors: seq<Path>,
    encryptionErrors: seq<Path>,
    checksumFailures: seq<Path>)

  datatype Test = MissingBlock | ChecksumFailure | EncryptionError | CompressionError | AnyFinding

  /** What the check looks at: the codec, the block store, and the inodes whose block checksum holds. */
  datatype Scope = Scope(cfg: Config, blocks: map<nat, Bytes>, verified: set<nat>) {

    function Decrypted(n: Inode): Option<Bytes>
      requires n.id in blocks
    {
      Decode(cfg, false, n.meta.encrypted, blocks[n.id])
    }

    predicate Missing(n: Inode) { n.kind != Directory && n.id !in blocks }

    predicate BadChecksum(n: Inode) { n.kind != Directory && n.id in blocks && n.id !in verified }

    predicate BadEncryption(n: Inode) { n.kind != Directory && n.id in blocks && Decrypted(n).None? }

    predicate BadCompression(n: Inode) {
      n.kind != Directory && n.id in blocks && Decrypted(n).Some? && n.meta.compressed
      && cfg.codec.decompress(Decrypted(n).value).None?
    }

    predicate BadSize(n: Inode) {
      n.kind != Directory && !BadChecksum(n)
      && Content(cfg, blocks, n).Some? && |Content(cfg, blocks, n).value| != n.size
    }

    predicate Finding(n: Inode) {
      Missing(n) || BadChecksum(n) || BadEncryption(n) || BadCompression(n) || BadSize(n)
    }

    predicate Picks(test: Test, n: Inode) {
      match test
      case MissingBlock => Missing(n)
      case ChecksumFailure => BadChecksum(n)
      case EncryptionError => BadEncryption(n)
      case CompressionError => BadCompression(n)
      case AnyFinding => Finding(n)
    }

    function Mismatch(n: Inode): SizeMismatch
      requires BadSize(n)
    {
      SizeMismatch(n.path, n.size, |Content(cfg, blocks, n).value|)
    }
  }

  /** The check finds something about an inode exactly when its block's checksum fails or it does
      not decode to as many bytes as the inode says. */
  lemma FindingExact(s: Scope, n: Inode)
    ensures s.Finding(n) <==>
              n.kind != Directory
              && (Content(s.cfg, s.blocks, n).None? || n.id !in s.verified
                  || |Content(s.cfg, s.blocks, n).value| != n.size)
    ensures s.Missing(n) ==> !s.BadChecksum(n) && !s.BadEncryption(n) && !s.BadCompression(n) && !s.BadSize(n)
  {
  }

  /** A volume with sound checksums has no findings exactly when its active entries read back at
      their recorded sizes: the catalog side of the service's invariant. */
  lemma CleanExact(s: Scope, v: Volume)
    requires s.blocks == v.blocks && forall p :: p in v.active ==> v.active[p].id in s.verified
    requires forall p :: p in v.active && v.active[p].kind == Symlink ==>
               !v.active[p].meta.compressed && !v.active[p].meta.encrypted
    ensures (forall p :: p in v.active ==> !s.Finding(v.active[p])) <==> AllStored(s.cfg, v.blocks, v.active)
  {
    forall p | p in v.active ensures s.Finding(v.active[p]) <==> !Stored(s.cfg, v.blocks, v.active[p]) {
      FindingExact(s, v.active[p]);
    }
  }

  /** The paths, in listing order, of the inodes the test picks. */
  function Select(s: Scope, test: Test, inodes: seq<Inode>): seq<Path> {
    if inodes == [] then []
    else
      var n := inodes[|inodes| - 1];
      Select(s, test, inodes[..|inodes| - 1]) + if s.Picks(test, n) then [n.path] else []
  }

  function Mismatches(s: Scope, inodes: seq<Inode>): seq<SizeMismatch> {
    if inodes == [] then []
    else
      var n := inodes[|inodes| - 1];
      Mismatches(s, inodes[..|inodes| - 1]) + if s.BadSize(n) then [s.Mismatch(n)] else []
  }

  /** The catalog in listing order. */
  ghost predicate Lists(c: Catalog, inodes: seq<Inode>) {
    && (forall i :: 0 <= i < |inodes| ==> inodes[i].path in c && c[inodes[i].path] == inodes[i])
    && (forall i, j :: 0 <= i < j < |inodes| ==> Less(inodes[i].path, inodes[j].path))
    && (forall p :: p in c ==> exists i :: 0 <= i < |inodes| && inodes[i].path == p)
  }

  lemma {:induction false} SelectExact(s: Scope, test: Test, inodes: seq<Inode>, p: Path)
    ensures p in Select(s, test, inodes) <==>
              exists i :: 0 <= i < |inodes| && inodes[i].path == p && s.Picks(test, inodes[i])
  {
    if inodes == [] {
    } else {
      var front, n := inodes[..|inodes| - 1], inodes[|inodes| - 1];
      SelectExact(s, test, front, p);
      if p in Select(s, test, front) {
        var i :| 0 <= i < |front| && front[i].path == p && s.Picks(test, front[i]);
        assert inodes[i].path == p && s.Picks(test, inodes[i]);
      }
      if i :| 0 <= i < |inodes| && inodes[i].path == p && s.Picks(test, inodes[i]) {
        if i < |front| { assert front[i].path == p && s.Picks(test, front[i]); }
      }
    }
  }

  lemma {:induction false} SelectAscending(s: Scope, test: Test, inodes: seq<Inode>)
    requires forall i, j :: 0 <= i < j < |inodes| ==> Less(inodes[i].path, inodes[j].path)
    ensures Ascending(Less, Select(s, test, inodes))
  {
    if inodes == [] {
    } else {
      var front, n := inodes[..|inodes| - 1], inodes[|inodes| - 1];
      SelectAscending(s, test, front);
      var r := Select(s, test, front);
      forall i | 0 <= i < |r| ensures Less(r[i], n.path) {
        SelectExact(s, test, front, r[i]);
        assert r[i] in r;
      }
    }
  }

  /** A path is listed under a kind of finding exactly when the catalog's entry has it, once and in order. */
  lemma SelectedPaths(s: Scope, test: Test, c: Catalog, inodes: seq<Inode>)
    requires Lists(c, inodes)
    ensures Ascending(Less, Select(s, test, inodes))
    ensures forall p :: p in Select(s, test, inodes) <==> p in c && s.Picks(test, c[p])
  {
    SelectAscending(s, test, inodes);
    forall p ensures p in Select(s, test, inodes) <==> p in c && s.Picks(test, c[p]) {
      SelectExact(s, test, inodes, p);
      if p in c && s.Picks(test, c[p]) {
        var i :| 0 <= i < |inodes| && inodes[i].path == p;
        assert s.Picks(test, inodes[i]);
      }
    }
  }

  /** A size mismatch is reported for exactly the entries with one, with both sizes. */
  lemma {:induction false} MismatchesExact(s: Scope, inodes: seq<Inode>, m: SizeMismatch)
    ensures m in Mismatches(s, inodes) <==>
              exists i :: 0 <= i < |inodes| && s.BadSize(inodes[i]) && s.Mismatch(inodes[i]) == m
  {
    if inodes == [] {
    } else {
      var front := inodes[..|inodes| - 1];
      MismatchesExact(s, front, m);
      if m in Mismatches(s, front) {
        var i :| 0 <= i < |front| && s.BadSize(front[i]) && s.Mismatch(front[i]) == m;
        assert s.BadSize(inodes[i]) && s.Mismatch(inodes[i]) == m;
      }
      if i :| 0 <= i < |inodes| && s.BadSize(inodes[i]) && s.Mismatch(inodes[i]) == m {
        if i < |front| { assert s.BadSize(front[i]) && s.Mismatch(front[i]) == m; }
      }
    }
  }

  /** What the report of a check over `inodes` says about each of them. */
  ghost predicate Reports(s: Scope, inodes: seq<Inode>, report: FsckReport) {
    && report.checkedInodes == |inodes|
    && report.validInodes == |inodes| - |Select(s, AnyFinding, inodes)|
    && report.missingBlocks == Select(s, MissingBlock, inodes)
    && report.checksumFailures == Select(s, ChecksumFailure, inodes)
    && report.encryptionErrors == Select(s, EncryptionError, inodes)
    && report.compressionErrors == Select(s, CompressionError, inodes)
    && report.sizeMismatches == Mismatches(s, inodes)
  }

  /** One more inode in the report. */
  function Extended(s: Scope, n: Inode, before: FsckReport): FsckReport {
    before.(
      checkedInodes := before.checkedInodes + 1,
      validInodes := before.validInodes + if s.Finding(n) then 0 else 1,
      missingBlocks := before.missingBlocks + if s.Missing(n) then [n.path] else [],
      checksumFailures := before.checksumFailures + if s.BadChecksum(n) then [n.path] else [],
      encryptionErrors := before.encryptionErrors + if s.BadEncryption(n) then [n.path] else [],
      compressionErrors := before.compressionErrors + if s.BadCompression(n) then [n.path] else [],
      sizeMismatches := before.sizeMismatches + if s.BadSize(n) then [s.Mismatch(n)] else [])
  }

  lemma ReportsStep(s: Scope, inodes: seq<Inode>, k: nat, before: FsckReport)
    requires k < |inodes| && Reports(s, inodes[..k], before)
    ensures Reports(s, inodes[..k + 1], Extended(s, inodes[k], before))
  {
    assert inodes[..k + 1][..k] == inodes[..k];
  }

  /** Blocks that belong to no entry, active or deleted. */
  function Orphans(active: Catalog, deleted: Catalog, blocks: map<nat, Bytes>): set<nat> {
    blocks.Keys - Ids(active) - Ids(deleted)
  }

  function Ids(c: Catalog): set<nat> { set p | p in c :: c[p].id }

  class IntegrityService {

    /** Every list of the report is exact, and so is the orphan list unless the catalog has a deleted
        entry without a name, which makes the check pass over all of them. */
    static method DeepFsck(s: Scope, active: Catalog, deleted: Catalog, inodes: seq<Inode>)
      returns (report: FsckReport)
      requires Lists(active, inodes)
      ensures Reports(s, inodes, report)
      ensures Ascending(Smaller, report.orphanedBlocks)
      ensures forall id :: id in report.orphanedBlocks <==>
                "" !in deleted && id in Orphans(active, deleted, s.blocks)
    {
      report := FsckReport(0, 0, [], [], [], [], [], []);
      for k := 0 to |inodes|
        invariant Reports(s, inodes[..k], report) && report.orphanedBlocks == []
      {
        ReportsStep(s, inodes, k, report);
        hide Reports, Extended;
        report := CheckInode(s, inodes[k], report);
      }
      assert inodes[..|inodes|] == inodes;
      var orphaned := UnownedBlocks(active, deleted, s.blocks);
      orphaned := RetainOthers(SortDedup(Smaller, orphaned), Ids(deleted));
      report := report.(orphanedBlocks := orphaned);
    }

    /** One turn of the loop over the active inodes. */
    static method CheckInode(s: Scope, n: Inode, before: FsckReport) returns (report: FsckReport)
      ensures report == Extended(s, n, before) && report.orphanedBlocks == before.orphanedBlocks
    {
      FindingExact(s, n);
      report := before.(checkedInodes := before.checkedInodes + 1);
      var inodeValid := true;
      if n.kind == Directory {
        return report.(validInodes := report.validInodes + 1);
      }
      if n.id !in s.blocks {
        return report.(missingBlocks := report.missingBlocks + [n.path]);
      }
      if n.id !in s.verified {
        report := report.(checksumFailures := report.checksumFailures + [n.path]);
        inodeValid := false;
      }
      var data := s.blocks[n.id];
      if n.meta.encrypted {
        var decrypted := if s.cfg.hasKey then s.cfg.codec.decrypt(data) else None;
        if decrypted.None? {
          return report.(encryptionErrors := report.encryptionErrors + [n.path]);
        }
        data := decrypted.value;
      }
      if n.meta.compressed {
        var decompressed := s.cfg.codec.decompress(data);
        if decompressed.None? {
          report := report.(compressionErrors := report.compressionErrors + [n.path]);
          inodeValid := false;
        } else {
          data := decompressed.value;
        }
      }
      if inodeValid && |data| != n.size {
        report := report.(sizeMismatches := report.sizeMismatches + [SizeMismatch(n.path, n.size, |data|)]);
        inodeValid := false;
      }
      if inodeValid { report := report.(validInodes := report.validInodes + 1); }
    }

    /** Blocks of no active inode. The deleted entry looked for is always the one without a name,
        since no active entry has the id. */
    static method UnownedBlocks(active: Catalog, deleted: Catalog, blocks: map<nat, Bytes>) returns (found: seq<nat>)
      ensures forall id :: id in found <==> "" !in deleted && id in blocks && id !in Ids(active)
    {
      var records := Listing(Smaller, blocks.Keys);
      found := [];
      for k := 0 to |records|
        invariant forall id :: id in found <==> "" !in deleted && id in records[..k] && id !in Ids(active)
      {
        assert records[..k + 1] == records[..k] + [records[k]];
        if records[k] !in Ids(active) {
          if "" in deleted { continue; }
          found := found + [records[k]];
        }
      }
      assert records[..|records|] == records;
    }

    static method RetainOthers(found: seq<nat>, ids: set<nat>) returns (r: seq<nat>)
      requires Ascending(Smaller, found)
      ensures Ascending(Smaller, r)
      ensures forall id :: id in r <==> id in found && id !in ids
    {
      r := [];
      for k := 0 to |found|
        invariant Ascending(Smaller, r)
        invariant forall id :: id in r <==> id in found[..k] && id !in ids
      {
        assert found[..k + 1] == found[..k] + [found[k]];
        if found[k] !in ids {
          forall i | 0 <= i < |r| ensures Smaller(r[i], found[k]) {
            assert r[i] in r;
            var j :| 0 <= j < k && found[j] == r[i];
          }
          r := r + [found[k]];
        }
      }
      assert found[..|found|] == found;
    }
  }
}
