/** The block store: records of extents over the blocks of a device, and what files can do to each
    other through them. */
module BlockStorage {
  import opened ByteStrings
  import opened Division
  import opened Wrappers

  /** `blocks` device blocks from `block` on, of which the first `len` bytes are the file's. */
  datatype Extent = Extent(block: nat, blocks: nat, len: nat) {
    function End(): nat { block + blocks }
  }

  datatype Record = Record(size: nat, extents: seq<Extent>) {
    function First(): nat { if extents == [] then 0 else extents[0].block }

    function Total(): nat { TotalBlocks(extents) }
  }

  datatype FreeExtent = FreeExtent(block: nat, blocks: nat) {
    function End(): nat { block + blocks }
  }

  datatype Policy = Policy(bestFit: bool, splitThreshold: nat, coalesce: bool, trimTail: bool)

  type Device = seq<Bytes>

  function TotalBlocks(extents: seq<Extent>): nat {
    if extents == [] then 0 else TotalBlocks(extents[..|extents| - 1]) + extents[|extents| - 1].blocks
  }

  function TotalBytes(extents: seq<Extent>): nat {
    if extents == [] then 0 else TotalBytes(extents[..|extents| - 1]) + extents[|extents| - 1].len
  }

  // ----- bytes in blocks -----

  /** Blocks that hold `len` bytes. */
  function DataBlocks(bs: nat, len: nat): nat
    requires bs > 0
  {
    if len == 0 then 0 else if len <= bs then 1 else 1 + DataBlocks(bs, len - bs)
  }

  /** Blocks asked for when `size` bytes are to be written. */
  function NeededBlocks(bs: nat, size: nat): nat
    requires bs > 0
  {
    if size == 0 then 1 else (size + bs - 1) / bs
  }

  /** As many blocks are asked for as hold the bytes, and one for none. */
  lemma {:induction false} NeededIsData(bs: nat, size: nat)
    requires bs > 0
    ensures NeededBlocks(bs, size) == if size == 0 then 1 else DataBlocks(bs, size)
    decreases size
  {
    if size == 0 {
    } else if size <= bs {
      QuotientIs(size + bs - 1, bs, 1);
    } else {
      NeededIsData(bs, size - bs);
      var q := (size - 1) / bs;
      assert size - 1 == bs * q + (size - 1) % bs && bs * (q + 1) == bs * q + bs;
      QuotientIs(size + bs - 1, bs, q + 1);
    }
  }

  /** The bytes cut into blocks, the rest filled up with zeros. */
  function Blocks(bs: nat, bytes: Bytes, count: nat): (r: seq<Bytes>)
    requires bs > 0
    ensures |r| == count && forall k :: 0 <= k < count ==> |r[k]| == bs
    decreases count
  {
    if count == 0 then []
    else if |bytes| <= bs then [bytes + Zeros(bs - |bytes|)] + Blocks(bs, [], count - 1)
    else [bytes[..bs]] + Blocks(bs, bytes[bs..], count - 1)
  }

  /** The device after writing whole blocks; it grows to twice its size when they lie behind its end. */
  function Stored(bs: nat, device: Device, at: nat, blocks: seq<Bytes>): Device {
    var end := at + |blocks|;
    var grown := if end > |device| then device + seq(Max(2 * |device|, end) - |device|, _ => Zeros(bs)) else device;
    grown[..at] + blocks + grown[end..]
  }

  lemma StoredAt(bs: nat, device: Device, at: nat, blocks: seq<Bytes>)
    ensures var d := Stored(bs, device, at, blocks);
            && |d| >= |device| && |d| >= at + |blocks|
            && (forall k :: at <= k < at + |blocks| ==> d[k] == blocks[k - at])
            && (forall k :: 0 <= k < |device| && !(at <= k < at + |blocks|) ==> d[k] == device[k])
            && (forall k :: |device| <= k < |d| && !(at <= k < at + |blocks|) ==> d[k] == Zeros(bs))
  {
  }

  ghost predicate Rows(bs: nat, device: Device) { forall k :: 0 <= k < |device| ==> |device[k]| == bs }

  lemma StoredRows(bs: nat, device: Device, at: nat, blocks: seq<Bytes>)
    requires Rows(bs, device) && forall k :: 0 <= k < |blocks| ==> |blocks[k]| == bs
    ensures Rows(bs, Stored(bs, device, at, blocks))
  {
    StoredAt(bs, device, at, blocks);
    hide Stored;
  }

  /** `len` bytes from the start of a block on. */
  function ReadBlocks(bs: nat, device: Device, block: nat, len: nat): Bytes
    requires bs > 0 && Rows(bs, device) && block + DataBlocks(bs, len) <= |device|
    decreases len
  {
    if len == 0 then []
    else if len <= bs then device[block][..len]
    else device[block] + ReadBlocks(bs, device, block + 1, len - bs)
  }

  lemma {:induction false} ReadLength(bs: nat, device: Device, block: nat, len: nat)
    requires bs > 0 && Rows(bs, device) && block + DataBlocks(bs, len) <= |device|
    ensures |ReadBlocks(bs, device, block, len)| == len
    decreases len
  {
    if len <= bs {
    } else {
      ReadLength(bs, device, block + 1, len - bs);
    }
  }

  /** What has been cut into blocks reads back. */
  lemma {:induction false} ReadBack(bs: nat, device: Device, at: nat, bytes: Bytes, count: nat)
    requires bs > 0 && Rows(bs, device) && DataBlocks(bs, |bytes|) <= count && at + count <= |device|
    requires device[at..at + count] == Blocks(bs, bytes, count)
    ensures ReadBlocks(bs, device, at, |bytes|) == bytes
    decreases |bytes|
  {
    if bytes == [] {
    } else if |bytes| <= bs {
      assert device[at] == device[at..at + count][0] == bytes + Zeros(bs - |bytes|);
    } else {
      var rest := bytes[bs..];
      assert device[at] == device[at..at + count][0] == bytes[..bs];
      assert device[at + 1..at + count] == device[at..at + count][1..] == Blocks(bs, rest, count - 1);
      ReadBack(bs, device, at + 1, rest, count - 1);
      assert bytes == bytes[..bs] + rest;
    }
  }

  /** Reading depends on the blocks that hold the bytes only. */
  lemma {:induction false} ReadDepends(bs: nat, a: Device, b: Device, block: nat, len: nat)
    requires bs > 0 && Rows(bs, a) && Rows(bs, b)
    requires block + DataBlocks(bs, len) <= |a| && block + DataBlocks(bs, len) <= |b|
    requires forall k :: block <= k < block + DataBlocks(bs, len) ==> a[k] == b[k]
    ensures ReadBlocks(bs, a, block, len) == ReadBlocks(bs, b, block, len)
    decreases len
  {
    if len <= bs {
    } else {
      ReadDepends(bs, a, b, block + 1, len - bs);
    }
  }

  /** And on every one of them: where two devices differ in the first byte of such a block, the bytes
      read differ. */
  lemma {:induction false} ReadShows(bs: nat, a: Device, b: Device, block: nat, len: nat, k: nat)
    requires bs > 0 && Rows(bs, a) && Rows(bs, b)
    requires block + DataBlocks(bs, len) <= |a| && block + DataBlocks(bs, len) <= |b|
    requires block <= k < block + DataBlocks(bs, len) && a[k][0] != b[k][0]
    ensures ReadBlocks(bs, a, block, len) != ReadBlocks(bs, b, block, len)
    decreases len
  {
    if len <= bs {
      assert ReadBlocks(bs, a, block, len)[0] != ReadBlocks(bs, b, block, len)[0];
    } else if k == block {
      assert ReadBlocks(bs, a, block, len)[0] != ReadBlocks(bs, b, block, len)[0];
    } else {
      ReadShows(bs, a, b, block + 1, len - bs, k);
      assert ReadBlocks(bs, a, block, len)[bs..] == ReadBlocks(bs, a, block + 1, len - bs);
      assert ReadBlocks(bs, b, block, len)[bs..] == ReadBlocks(bs, b, block + 1, len - bs);
    }
  }

  // ----- records -----

  /** The extent holds its bytes and lies on the device. */
  predicate FitsOn(bs: nat, device: Device, e: Extent)
    requires bs > 0
  {
    e.len > 0 && DataBlocks(bs, e.len) <= e.blocks && e.End() <= |device|
  }

  ghost predicate AllFit(bs: nat, device: Device, extents: seq<Extent>)
    requires bs > 0
  {
    forall i :: 0 <= i < |extents| ==> FitsOn(bs, device, extents[i])
  }

  function ReadExtents(bs: nat, device: Device, extents: seq<Extent>): (r: Bytes)
    requires bs > 0 && Rows(bs, device) && AllFit(bs, device, extents)
  {
    if extents == [] then []
    else
      var last := extents[|extents| - 1];
      assert FitsOn(bs, device, last);
      ReadExtents(bs, device, extents[..|extents| - 1]) + ReadBlocks(bs, device, last.block, last.len)
  }

  ghost predicate WellRecord(bs: nat, device: Device, r: Record)
    requires bs > 0
  {
    AllFit(bs, device, r.extents) && r.size == TotalBytes(r.extents)
  }

  function ReadRecord(bs: nat, device: Device, r: Record): Bytes
    requires bs > 0 && Rows(bs, device) && WellRecord(bs, device, r)
  {
    var all := ReadExtents(bs, device, r.extents);
    all[..Min(r.size, |all|)]
  }

  lemma {:induction false} ExtentsLength(bs: nat, device: Device, extents: seq<Extent>)
    requires bs > 0 && Rows(bs, device) && AllFit(bs, device, extents)
    ensures |ReadExtents(bs, device, extents)| == TotalBytes(extents)
  {
    if extents == [] {
    } else {
      var last := extents[|extents| - 1];
      assert FitsOn(bs, device, last);
      ExtentsLength(bs, device, extents[..|extents| - 1]);
      ReadLength(bs, device, last.block, last.len);
    }
  }

  /** The block holds bytes of the record. */
  ghost predicate HoldsBytes(bs: nat, r: Record, b: nat)
    requires bs > 0
  {
    exists i :: 0 <= i < |r.extents| && r.extents[i].block <= b < r.extents[i].block + DataBlocks(bs, r.extents[i].len)
  }

  lemma {:induction false} ExtentsDepend(bs: nat, a: Device, b: Device, extents: seq<Extent>)
    requires bs > 0 && Rows(bs, a) && Rows(bs, b) && AllFit(bs, a, extents) && AllFit(bs, b, extents)
    requires forall i, k :: 0 <= i < |extents|
                            && extents[i].block <= k < extents[i].block + DataBlocks(bs, extents[i].len) ==>
               a[k] == b[k]
    ensures ReadExtents(bs, a, extents) == ReadExtents(bs, b, extents)
  {
    if extents == [] {
    } else {
      var last := extents[|extents| - 1];
      assert FitsOn(bs, a, last) && FitsOn(bs, b, last);
      ExtentsDepend(bs, a, b, extents[..|extents| - 1]);
      ReadDepends(bs, a, b, last.block, last.len);
    }
  }

  lemma {:induction false} ExtentsShow(bs: nat, a: Device, b: Device, extents: seq<Extent>, i: nat)
    requires bs > 0 && Rows(bs, a) && Rows(bs, b) && AllFit(bs, a, extents) && AllFit(bs, b, extents)
    requires i < |extents| && FitsOn(bs, a, extents[i]) && FitsOn(bs, b, extents[i])
    requires ReadBlocks(bs, a, extents[i].block, extents[i].len) != ReadBlocks(bs, b, extents[i].block, extents[i].len)
    ensures ReadExtents(bs, a, extents) != ReadExtents(bs, b, extents)
  {
    var front, last := extents[..|extents| - 1], extents[|extents| - 1];
    var x, y := ReadExtents(bs, a, front), ReadExtents(bs, b, front);
    assert FitsOn(bs, a, last) && FitsOn(bs, b, last);
    ExtentsLength(bs, a, front);
    ExtentsLength(bs, b, front);
    var u, v := ReadBlocks(bs, a, last.block, last.len), ReadBlocks(bs, b, last.block, last.len);
    assert (x + u)[..|x|] == x && (y + v)[..|y|] == y && (x + u)[|x|..] == u && (y + v)[|y|..] == v;
    if i == |extents| - 1 {
    } else {
      assert front[i] == extents[i];
      ExtentsShow(bs, a, b, front, i);
    }
  }

  lemma RecordIsExtents(bs: nat, device: Device, r: Record)
    requires bs > 0 && Rows(bs, device) && WellRecord(bs, device, r)
    ensures ReadRecord(bs, device, r) == ReadExtents(bs, device, r.extents) && |ReadRecord(bs, device, r)| == r.size
  {
    ExtentsLength(bs, device, r.extents);
  }

  /** A record reads the same when the blocks that hold its bytes are the same. */
  lemma RecordDepends(bs: nat, a: Device, b: Device, r: Record)
    requires bs > 0 && Rows(bs, a) && Rows(bs, b) && WellRecord(bs, a, r) && WellRecord(bs, b, r)
    requires forall k :: 0 <= k < |a| && k < |b| && HoldsBytes(bs, r, k) ==> a[k] == b[k]
    ensures ReadRecord(bs, a, r) == ReadRecord(bs, b, r)
  {
    RecordIsExtents(bs, a, r);
    RecordIsExtents(bs, b, r);
    forall i, k | 0 <= i < |r.extents|
                  && r.extents[i].block <= k < r.extents[i].block + DataBlocks(bs, r.extents[i].len)
      ensures a[k] == b[k]
    {
      assert FitsOn(bs, a, r.extents[i]) && FitsOn(bs, b, r.extents[i]) && HoldsBytes(bs, r, k);
    }
    ExtentsDepend(bs, a, b, r.extents);
  }

  lemma RecordShows(bs: nat, a: Device, b: Device, r: Record, k: nat)
    requires bs > 0 && Rows(bs, a) && Rows(bs, b) && WellRecord(bs, a, r) && WellRecord(bs, b, r)
    requires k < |a| && k < |b| && HoldsBytes(bs, r, k) && a[k][0] != b[k][0]
    ensures ReadRecord(bs, a, r) != ReadRecord(bs, b, r)
  {
    RecordIsExtents(bs, a, r);
    RecordIsExtents(bs, b, r);
    var i :| 0 <= i < |r.extents| && r.extents[i].block <= k < r.extents[i].block + DataBlocks(bs, r.extents[i].len);
    assert FitsOn(bs, a, r.extents[i]) && FitsOn(bs, b, r.extents[i]);
    ReadShows(bs, a, b, r.extents[i].block, r.extents[i].len, k);
    ExtentsShow(bs, a, b, r.extents, i);
  }

  lemma StoredFits(bs: nat, device: Device, at: nat, blocks: seq<Bytes>, r: Record)
    requires bs > 0 && WellRecord(bs, device, r)
    ensures WellRecord(bs, Stored(bs, device, at, blocks), r)
  {
    StoredAt(bs, device, at, blocks);
    hide Stored, DataBlocks;
    forall i | 0 <= i < |r.extents| ensures FitsOn(bs, Stored(bs, device, at, blocks), r.extents[i]) {
      assert FitsOn(bs, device, r.extents[i]);
    }
  }

  // ----- what one write does to the other records -----

  type Records = map<nat, Record>

  ghost predicate WellKept(bs: nat, device: Device, records: Records)
    requires bs > 0
  {
    Rows(bs, device) && forall id :: id in records ==> WellRecord(bs, device, records[id])
  }

  /** The device after `bytes` have been written to the blocks from `at` on. */
  function AfterWrite(bs: nat, device: Device, at: nat, count: nat, bytes: Bytes): Device
    requires bs > 0
  {
    Stored(bs, device, at, Blocks(bs, bytes, count))
  }

  lemma AfterWriteKept(bs: nat, device: Device, at: nat, count: nat, bytes: Bytes, records: Records)
    requires bs > 0 && WellKept(bs, device, records)
    ensures WellKept(bs, AfterWrite(bs, device, at, count, bytes), records)
  {
    hide WellRecord;
    StoredRows(bs, device, at, Blocks(bs, bytes, count));
    forall id | id in records ensures WellRecord(bs, AfterWrite(bs, device, at, count, bytes), records[id]) {
      StoredFits(bs, device, at, Blocks(bs, bytes, count), records[id]);
    }
  }

  /** All records but `id` read as before. */
  ghost predicate OthersRead(bs: nat, a: Device, b: Device, records: Records, id: nat)
    requires bs > 0 && WellKept(bs, a, records) && WellKept(bs, b, records)
  {
    forall q :: q in records && q != id ==> ReadRecord(bs, a, records[q]) == ReadRecord(bs, b, records[q])
  }

  /** No block of the range holds bytes of another record. */
  ghost predicate RangeFree(bs: nat, records: Records, id: nat, at: nat, count: nat)
    requires bs > 0
  {
    forall q, k :: q in records && q != id && at <= k < at + count ==> !HoldsBytes(bs, records[q], k)
  }

  /** Whatever is on the device and whatever is written there, the other records keep their content. */
  ghost predicate Isolated(bs: nat, records: Records, id: nat, at: nat, count: nat, size: nat)
    requires bs > 0
  {
    forall device: Device, bytes: Bytes ::
      |bytes| == size && WellKept(bs, device, records) ==> Spared(bs, device, records, id, at, count, bytes)
  }

  ghost predicate Spared(bs: nat, device: Device, records: Records, id: nat, at: nat, count: nat, bytes: Bytes)
    requires bs > 0 && WellKept(bs, device, records)
  {
    AfterWriteKept(bs, device, at, count, bytes, records);
    OthersRead(bs, device, AfterWrite(bs, device, at, count, bytes), records, id)
  }

  lemma FreeSpares(bs: nat, device: Device, records: Records, id: nat, at: nat, count: nat, bytes: Bytes)
    requires bs > 0 && WellKept(bs, device, records) && RangeFree(bs, records, id, at, count)
    ensures Spared(bs, device, records, id, at, count, bytes)
  {
    var after := AfterWrite(bs, device, at, count, bytes);
    AfterWriteKept(bs, device, at, count, bytes, records);
    StoredAt(bs, device, at, Blocks(bs, bytes, count));
    hide Stored, WellRecord, HoldsBytes;
    forall q | q in records && q != id ensures ReadRecord(bs, device, records[q]) == ReadRecord(bs, after, records[q]) {
      RecordDepends(bs, device, after, records[q]);
    }
  }

  /** A device full of ones. */
  function Ones(bs: nat, n: nat): Device { seq(n, _ => seq(bs, _ => 1)) }

  /** Where a block of the range holds bytes of another record, writing zeros over ones shows. */
  lemma TakenSpoils(bs: nat, device: Device, records: Records, id: nat, at: nat, count: nat, size: nat, q: nat, k: nat)
    requires bs > 0 && WellKept(bs, device, records)
    requires q in records && q != id && at <= k < at + count && HoldsBytes(bs, records[q], k)
    ensures WellKept(bs, Ones(bs, |device|), records)
    ensures !Spared(bs, Ones(bs, |device|), records, id, at, count, Zeros(size))
  {
    var ones := Ones(bs, |device|);
    forall p | p in records ensures WellRecord(bs, ones, records[p]) { SameLengthFits(bs, device, ones, records[p]); }
    var after := AfterWrite(bs, ones, at, count, Zeros(size));
    AfterWriteKept(bs, ones, at, count, Zeros(size), records);
    StoredAt(bs, ones, at, Blocks(bs, Zeros(size), count));
    HeldOnDevice(bs, device, records[q], k);
    ZeroBlocks(bs, size, count, k - at);
    hide Stored, WellRecord, HoldsBytes;
    RecordShows(bs, ones, after, records[q], k);
  }

  lemma SameLengthFits(bs: nat, a: Device, b: Device, r: Record)
    requires bs > 0 && |a| == |b| && WellRecord(bs, a, r)
    ensures WellRecord(bs, b, r)
  {
    forall i | 0 <= i < |r.extents| ensures FitsOn(bs, b, r.extents[i]) { assert FitsOn(bs, a, r.extents[i]); }
  }

  lemma HeldOnDevice(bs: nat, device: Device, r: Record, k: nat)
    requires bs > 0 && WellRecord(bs, device, r) && HoldsBytes(bs, r, k)
    ensures k < |device|
  {
    var i :| 0 <= i < |r.extents| && r.extents[i].block <= k < r.extents[i].block + DataBlocks(bs, r.extents[i].len);
    assert FitsOn(bs, device, r.extents[i]);
  }

  lemma {:induction false} ZeroBlocks(bs: nat, size: nat, count: nat, k: nat)
    requires bs > 0 && k < count
    ensures Blocks(bs, Zeros(size), count)[k][0] == 0
    decreases count
  {
    var rest := SatSub(size, bs);
    if size > bs { assert Zeros(size)[bs..] == Zeros(rest); }
    if k == 0 {
    } else {
      assert Zeros(0) == [];
      ZeroBlocks(bs, rest, count - 1, k - 1);
    }
  }

  /** A write leaves the content of all other records alone, whatever is on the device and whatever is
      written, exactly when none of the blocks it goes to holds bytes of another record. */
  lemma IsolatedExact(bs: nat, device: Device, records: Records, id: nat, at: nat, count: nat, size: nat)
    requires bs > 0 && WellKept(bs, device, records)
    ensures Isolated(bs, records, id, at, count, size) <==> RangeFree(bs, records, id, at, count)
  {
    hide WellKept, Spared, HoldsBytes, AfterWrite;
    if RangeFree(bs, records, id, at, count) {
      forall d: Device, bytes: Bytes | |bytes| == size && WellKept(bs, d, records)
        ensures Spared(bs, d, records, id, at, count, bytes)
      {
        FreeSpares(bs, d, records, id, at, count, bytes);
      }
    } else {
      var q, k :| q in records && q != id && at <= k < at + count && HoldsBytes(bs, records[q], k);
      TakenSpoils(bs, device, records, id, at, count, size, q, k);
    }
  }

  // ----- free blocks -----

  ghost predicate IsFree(free: seq<FreeExtent>, b: nat) {
    exists i :: 0 <= i < |free| && free[i].block <= b < free[i].End()
  }

  /** The block can be handed out: it is on the free list or has never been reached. */
  ghost predicate Available(free: seq<FreeExtent>, next: nat, b: nat) { b >= next || IsFree(free, b) }

  ghost predicate Ordered(free: seq<FreeExtent>) {
    && (forall i :: 0 <= i < |free| ==> free[i].blocks > 0)
    && (forall i, j :: 0 <= i < j < |free| ==> free[i].End() <= free[j].block)
  }

  /** The free list is in order and below the first block never reached. */
  ghost predicate FreeOk(free: seq<FreeExtent>, next: nat) {
    Ordered(free) && forall i :: 0 <= i < |free| ==> free[i].End() <= next
  }

  /** Stable sorting by position. */
  function InsertSorted(e: FreeExtent, s: seq<FreeExtent>): seq<FreeExtent> {
    if s != [] && e.block < s[|s| - 1].block
    then InsertSorted(e, s[..|s| - 1]) + [s[|s| - 1]]
    else s + [e]
  }

  function Sorted(s: seq<FreeExtent>): seq<FreeExtent> {
    if s == [] then [] else InsertSorted(s[|s| - 1], Sorted(s[..|s| - 1]))
  }

  lemma {:induction false} SortedStays(s: seq<FreeExtent>)
    requires Ordered(s)
    ensures Sorted(s) == s
  {
    if s == [] {
    } else {
      var front := s[..|s| - 1];
      SortedStays(front);
      assert front == [] || front[|front| - 1].block <= s[|s| - 1].block;
    }
  }

  /** A range none of whose blocks can be handed out fits between the free extents. */
  ghost predicate Clean(free: seq<FreeExtent>, next: nat, e: FreeExtent) {
    forall b: nat :: e.block <= b < e.End() ==> !Available(free, next, b)
  }

  lemma CleanIsApart(free: seq<FreeExtent>, next: nat, e: FreeExtent, i: nat)
    requires FreeOk(free, next) && Clean(free, next, e) && e.blocks > 0 && i < |free|
    ensures free[i].End() <= e.block || e.End() <= free[i].block
    ensures e.End() <= next
  {
    assert !Available(free, next, e.End() - 1);
    var b: nat := Max(e.block, free[i].block);
    if b < e.End() { assert !Available(free, next, b); }
  }

  lemma {:induction false} InsertElements(e: FreeExtent, s: seq<FreeExtent>)
    ensures |InsertSorted(e, s)| == |s| + 1 && forall x :: x in InsertSorted(e, s) <==> x == e || x in s
  {
    if s == [] || e.block >= s[|s| - 1].block {
    } else {
      InsertElements(e, s[..|s| - 1]);
      assert s == s[..|s| - 1] + [s[|s| - 1]];
    }
  }

  lemma {:induction false} InsertKeeps(e: FreeExtent, s: seq<FreeExtent>)
    requires Ordered(s) && e.blocks > 0
    requires forall i :: 0 <= i < |s| ==> s[i].End() <= e.block || e.End() <= s[i].block
    ensures Ordered(InsertSorted(e, s))
  {
    if s == [] || e.block >= s[|s| - 1].block {
      forall i | 0 <= i < |s| ensures s[i].End() <= e.block { assert s[i].block <= s[|s| - 1].block; }
    } else {
      var front, last := s[..|s| - 1], s[|s| - 1];
      InsertKeeps(e, front);
      InsertElements(e, front);
      var r := InsertSorted(e, front);
      assert InsertSorted(e, s) == r + [last];
      hide InsertSorted;
      forall i | 0 <= i < |r| ensures r[i].End() <= last.block {
        assert r[i] in r;
        if r[i] != e { var j :| 0 <= j < |front| && front[j] == r[i]; }
      }
    }
  }

  lemma SameElementsFree(a: seq<FreeExtent>, s: seq<FreeExtent>, e: FreeExtent)
    requires forall x :: x in a <==> x == e || x in s
    ensures forall b: nat :: IsFree(a, b) <==> IsFree(s, b) || e.block <= b < e.End()
  {
    forall b: nat ensures IsFree(a, b) <==> IsFree(s, b) || e.block <= b < e.End() {
      if IsFree(a, b) {
        var i :| 0 <= i < |a| && a[i].block <= b < a[i].End();
        assert a[i] in a;
        if a[i] != e { var j :| 0 <= j < |s| && s[j] == a[i]; }
      }
      if IsFree(s, b) {
        var i :| 0 <= i < |s| && s[i].block <= b < s[i].End();
        assert s[i] in a;
        var j :| 0 <= j < |a| && a[j] == s[i];
      }
      if e.block <= b < e.End() {
        assert e in a;
        var j :| 0 <= j < |a| && a[j] == e;
      }
    }
  }

  /** A turn of the loop that merges neighbours. */
  function Merged(merged: seq<FreeExtent>, e: FreeExtent): seq<FreeExtent> {
    if merged != [] && merged[|merged| - 1].End() >= e.block then
      var last := merged[|merged| - 1];
      merged[|merged| - 1 := last.(blocks := SatSub(e.End(), last.block))]
    else merged + [e]
  }

  lemma MergedOrdered(merged: seq<FreeExtent>, e: FreeExtent)
    requires Ordered(merged) && e.blocks > 0 && forall i :: 0 <= i < |merged| ==> merged[i].End() <= e.block
    ensures Ordered(Merged(merged, e))
    ensures forall i :: 0 <= i < |Merged(merged, e)| ==> Merged(merged, e)[i].End() <= e.End()
  {
  }

  lemma MergedFree(merged: seq<FreeExtent>, e: FreeExtent, b: nat)
    requires Ordered(merged) && e.blocks > 0 && forall i :: 0 <= i < |merged| ==> merged[i].End() <= e.block
    ensures IsFree(Merged(merged, e), b) <==> IsFree(merged, b) || e.block <= b < e.End()
  {
    var r, n := Merged(merged, e), |merged| - 1;
    if i :| 0 <= i < |merged| && merged[i].block <= b < merged[i].End() {
      assert r[i].block <= b < r[i].End();
    }
    if e.block <= b < e.End() { assert r[|r| - 1].block <= b < r[|r| - 1].End(); }
    if i :| 0 <= i < |r| && r[i].block <= b < r[i].End() {
      if i < |merged| && (i < n || b < merged[n].End()) { assert merged[i].block <= b < merged[i].End(); }
    }
  }

  /** Taking an extent off the list. */
  function Without(free: seq<FreeExtent>, index: nat): seq<FreeExtent>
    requires index < |free|
  {
    free[..index] + free[index + 1..]
  }

  lemma WithoutOrdered(free: seq<FreeExtent>, next: nat, index: nat)
    requires FreeOk(free, next) && index < |free|
    ensures FreeOk(Without(free, index), next)
  {
  }

  lemma WithoutFree(free: seq<FreeExtent>, index: nat, b: nat)
    requires Ordered(free) && index < |free|
    ensures IsFree(Without(free, index), b) <==> IsFree(free, b) && !(free[index].block <= b < free[index].End())
  {
    var rest := Without(free, index);
    if i :| 0 <= i < |rest| && rest[i].block <= b < rest[i].End() { LeftOf(free, index, i); }
    if i :| 0 <= i < |free| && free[i].block <= b < free[i].End() && i != index {
      assert rest[if i < index then i else i - 1] == free[i];
    }
  }

  /** What is left of a free list comes from other places of it, which do not overlap. */
  lemma LeftOf(free: seq<FreeExtent>, index: nat, i: nat)
    requires Ordered(free) && index < |free| && i < |Without(free, index)|
    ensures var j := if i < index then i else i + 1;
            && Without(free, index)[i] == free[j]
            && (free[j].End() <= free[index].block || free[index].End() <= free[j].block)
  {
  }

  // ----- the layout of records and free blocks -----

  ghost predicate Owns(r: Record, b: nat) {
    exists i :: 0 <= i < |r.extents| && r.extents[i].block <= b < r.extents[i].End()
  }

  /** No block belongs to two records, and none that belongs to one can be handed out. */
  ghost predicate Layout(free: seq<FreeExtent>, next: nat, records: Records) {
    && FreeOk(free, next)
    && (forall id, b: nat :: id in records && Owns(records[id], b) ==> !Available(free, next, b))
    && (forall p, q, b: nat :: p in records && q in records && p != q && Owns(records[p], b) ==> !Owns(records[q], b))
  }

  /** The extents of the record follow each other on the device. */
  predicate Contiguous(r: Record) {
    forall i :: 0 < i < |r.extents| ==> r.extents[i].block == r.extents[i - 1].End()
  }

  lemma {:induction false} ContiguousSpan(extents: seq<Extent>)
    requires extents != [] && Contiguous(Record(0, extents))
    ensures extents[|extents| - 1].End() == extents[0].block + TotalBlocks(extents)
    ensures forall i :: 0 <= i < |extents| ==>
              extents[0].block <= extents[i].block && extents[i].End() <= extents[0].block + TotalBlocks(extents)
  {
    var front, last := extents[..|extents| - 1], extents[|extents| - 1];
    if front == [] {
      assert TotalBlocks(front) == 0;
    } else {
      assert Contiguous(Record(0, front)) && front[|front| - 1] == extents[|extents| - 2];
      ContiguousSpan(front);
    }
  }

  lemma {:induction false} ContiguousCovers(extents: seq<Extent>, b: nat)
    requires extents != [] && Contiguous(Record(0, extents))
    requires extents[0].block <= b < extents[0].block + TotalBlocks(extents)
    ensures Owns(Record(0, extents), b)
  {
    var front, last := extents[..|extents| - 1], extents[|extents| - 1];
    ContiguousSpan(extents);
    if b >= last.block {
      assert extents[|extents| - 1].block <= b < extents[|extents| - 1].End();
    } else {
      assert front != [] && Contiguous(Record(0, front));
      ContiguousCovers(front, b);
      var i :| 0 <= i < |front| && front[i].block <= b < front[i].End();
      assert extents[i] == front[i];
    }
  }

  /** The blocks that overwriting or removing a record takes for its own are its own when its extents
      follow each other. */
  lemma ContiguousOwns(r: Record, b: nat)
    requires Contiguous(r)
    ensures Owns(r, b) <==> r.First() <= b < r.First() + r.Total()
  {
    if r.extents == [] {
    } else {
      assert Contiguous(Record(0, r.extents));
      ContiguousSpan(r.extents);
      if r.First() <= b < r.First() + r.Total() { ContiguousCovers(r.extents, b); }
    }
  }

  function NewRecord(at: nat, count: nat, size: nat): Record {
    Record(size, if size == 0 then [] else [Extent(at, count, size)])
  }

  /** The free list has been rewritten, with the same blocks to hand out. */
  ghost predicate SameFree(f: seq<FreeExtent>, n: nat, g: seq<FreeExtent>, m: nat) {
    FreeOk(g, m) && forall b: nat :: Available(g, m, b) <==> Available(f, n, b)
  }

  lemma SameFreeGiven(f: seq<FreeExtent>, n: nat, g: seq<FreeExtent>, m: nat, h: seq<FreeExtent>, o: nat,
                      at: nat, count: nat)
    requires Given(f, n, g, m, at, count) && SameFree(g, m, h, o)
    ensures Given(f, n, h, o, at, count)
  {
    hide Available, FreeOk;
  }

  lemma SameFreeTwice(f: seq<FreeExtent>, n: nat, g: seq<FreeExtent>, m: nat, h: seq<FreeExtent>, o: nat)
    requires SameFree(f, n, g, m) && SameFree(g, m, h, o)
    ensures SameFree(f, n, h, o)
  {
    hide Available, FreeOk;
  }

  /** The range has been taken from the blocks that can be handed out. */
  ghost predicate Taken(f: seq<FreeExtent>, n: nat, g: seq<FreeExtent>, m: nat, at: nat, count: nat) {
    && FreeOk(g, m)
    && (forall b: nat :: at <= b < at + count ==> Available(f, n, b))
    && (forall b: nat :: Available(g, m, b) <==> Available(f, n, b) && !(at <= b < at + count))
  }

  /** The range has been given back. */
  ghost predicate Given(f: seq<FreeExtent>, n: nat, g: seq<FreeExtent>, m: nat, at: nat, count: nat) {
    && FreeOk(g, m)
    && (forall b: nat :: Available(g, m, b) <==> Available(f, n, b) || at <= b < at + count)
  }

  /** The range is not available, and belongs to no record but `id`. */
  ghost predicate Reserved(free: seq<FreeExtent>, next: nat, records: Records, id: nat, at: nat, count: nat) {
    && FreeOk(free, next)
    && (forall b: nat :: at <= b < at + count ==> !Available(free, next, b))
    && (forall q, b: nat :: q in records && q != id && Owns(records[q], b) ==> !Available(free, next, b))
    && (forall q, b: nat :: q in records && q != id && Owns(records[q], b) ==> !(at <= b < at + count))
  }

  lemma HoldingIsOwning(bs: nat, device: Device, r: Record, b: nat)
    requires bs > 0 && WellRecord(bs, device, r) && HoldsBytes(bs, r, b)
    ensures Owns(r, b)
  {
    var i :| 0 <= i < |r.extents| && r.extents[i].block <= b < r.extents[i].block + DataBlocks(bs, r.extents[i].len);
    assert FitsOn(bs, device, r.extents[i]);
    assert r.extents[i].block <= b < r.extents[i].End();
  }

  lemma ReservedIsFree(bs: nat, device: Device, free: seq<FreeExtent>, next: nat, records: Records, id: nat,
                       at: nat, count: nat)
    requires bs > 0 && WellKept(bs, device, records) && Reserved(free, next, records, id, at, count)
    ensures RangeFree(bs, records, id, at, count)
  {
    forall q, k | q in records && q != id && at <= k < at + count ensures !HoldsBytes(bs, records[q], k) {
      if HoldsBytes(bs, records[q], k) { HoldingIsOwning(bs, device, records[q], k); }
    }
  }

  lemma NewOwns(at: nat, count: nat, size: nat, b: nat)
    ensures Owns(NewRecord(at, count, size), b) <==> size > 0 && at <= b < at + count
  {
    var r := NewRecord(at, count, size);
    if size > 0 && at <= b < at + count { assert r.extents[0].block <= b < r.extents[0].End(); }
  }

  lemma ReservedLayout(free: seq<FreeExtent>, next: nat, records: Records, id: nat, at: nat, count: nat, size: nat)
    requires Reserved(free, next, records, id, at, count)
    requires forall p, q, b: nat ::
               p in records && q in records && p != q && Owns(records[p], b) ==> !Owns(records[q], b)
    ensures Layout(free, next, records[id := NewRecord(at, count, size)])
  {
    var more := records[id := NewRecord(at, count, size)];
    forall b: nat { NewOwns(at, count, size, b); }
    hide Owns, NewRecord, Available, FreeOk;
    forall p, b: nat | p in more && Owns(more[p], b) ensures !Available(free, next, b) {
      if p != id { assert more[p] == records[p]; }
    }
    forall p, q, b: nat | p in more && q in more && p != q && Owns(more[p], b) ensures !Owns(more[q], b) {
      if p != id { assert more[p] == records[p]; }
      if q != id { assert more[q] == records[q]; }
    }
  }

  lemma WrittenReads(bs: nat, device: Device, at: nat, count: nat, bytes: Bytes)
    requires bs > 0 && Rows(bs, device) && NeededBlocks(bs, |bytes|) <= count
    ensures var after, r := AfterWrite(bs, device, at, count, bytes), NewRecord(at, count, |bytes|);
            Rows(bs, after) && WellRecord(bs, after, r) && ReadRecord(bs, after, r) == bytes
  {
    var blocks := Blocks(bs, bytes, count);
    var after, r := Stored(bs, device, at, blocks), NewRecord(at, count, |bytes|);
    StoredAt(bs, device, at, blocks);
    StoredRows(bs, device, at, blocks);
    NeededIsData(bs, |bytes|);
    hide Stored;
    if bytes != [] {
      assert FitsOn(bs, after, r.extents[0]);
      assert after[at..at + count] == blocks;
      ReadBack(bs, after, at, bytes, count);
      OneExtent(bs, after, r.extents[0]);
    }
  }

  lemma OneExtent(bs: nat, device: Device, e: Extent)
    requires bs > 0 && Rows(bs, device) && FitsOn(bs, device, e)
    ensures AllFit(bs, device, [e]) && TotalBytes([e]) == e.len
    ensures ReadExtents(bs, device, [e]) == ReadBlocks(bs, device, e.block, e.len)
    ensures |ReadBlocks(bs, device, e.block, e.len)| == e.len
  {
    ReadLength(bs, device, e.block, e.len);
    assert [e][..0] == [] && TotalBytes([]) == 0;
    assert ReadExtents(bs, device, []) == [];
  }

  lemma TrimmedSame(free: seq<FreeExtent>, next: nat)
    requires free != [] && free[|free| - 1].End() == next
    requires FreeOk(free, next)
    ensures SameFree(free, next, free[..|free| - 1], free[|free| - 1].block)
  {
    var rest, m := free[..|free| - 1], free[|free| - 1].block;
    forall b: nat ensures Available(rest, m, b) <==> Available(free, next, b) {
      if i :| 0 <= i < |free| && free[i].block <= b < free[i].End() {
        if i < |rest| { assert rest[i] == free[i]; }
      }
      if i :| 0 <= i < |rest| && rest[i].block <= b < rest[i].End() { assert free[i] == rest[i]; }
      if m <= b < next { assert free[|free| - 1].block <= b < free[|free| - 1].End(); }
    }
  }

  lemma Same(free: seq<FreeExtent>, next: nat)
    ensures FreeOk(free, next) ==> SameFree(free, next, free, next)
  {
  }

  lemma SortedOne(s: seq<FreeExtent>)
    requires |s| == 1
    ensures Sorted(s) == s
  {
    assert s[..0] == [] && Sorted([]) == [];
  }

  /** The merged list covers the first extents and ends before the rest. */
  ghost predicate MergedSoFar(sorted: seq<FreeExtent>, i: nat, merged: seq<FreeExtent>)
    requires i <= |sorted|
  {
    && Ordered(merged)
    && (forall k :: 0 <= k < |merged| ==> i > 0 && merged[k].End() <= sorted[i - 1].End())
    && (forall b: nat :: IsFree(merged, b) <==> IsFree(sorted[..i], b))
  }

  lemma MergedNext(sorted: seq<FreeExtent>, i: nat, merged: seq<FreeExtent>)
    requires Ordered(sorted) && i < |sorted| && MergedSoFar(sorted, i, merged)
    ensures MergedSoFar(sorted, i + 1, Merged(merged, sorted[i]))
  {
    if merged != [] {
      assert merged[0].End() <= sorted[i - 1].End() <= sorted[i].block;
      forall k | 0 <= k < |merged| ensures merged[k].End() <= sorted[i].block {
        assert merged[k].End() <= sorted[i - 1].End();
      }
    }
    MergedOrdered(merged, sorted[i]);
    forall b: nat ensures IsFree(Merged(merged, sorted[i]), b) <==> IsFree(sorted[..i + 1], b) {
      MergedFree(merged, sorted[i], b);
      assert sorted[..i + 1] == sorted[..i] + [sorted[i]];
      PushedFree(sorted[..i], sorted[i], b);
    }
  }

  lemma PushedFree(s: seq<FreeExtent>, e: FreeExtent, b: nat)
    ensures IsFree(s + [e], b) <==> IsFree(s, b) || e.block <= b < e.End()
  {
    var r := s + [e];
    if i :| 0 <= i < |s| && s[i].block <= b < s[i].End() { assert r[i] == s[i]; }
    if e.block <= b < e.End() { assert r[|s|].block <= b < r[|s|].End(); }
    if i :| 0 <= i < |r| && r[i].block <= b < r[i].End() {
      if i < |s| { assert r[i] == s[i]; }
    }
  }

  lemma MergedAll(sorted: seq<FreeExtent>, merged: seq<FreeExtent>, next: nat)
    requires MergedSoFar(sorted, |sorted|, merged)
    requires FreeOk(sorted, next)
    ensures SameFree(sorted, next, merged, next)
  {
    assert sorted[..|sorted|] == sorted;
    hide IsFree;
  }

  lemma PushedSorted(free: seq<FreeExtent>, next: nat, e: FreeExtent)
    requires FreeOk(free, next) && Clean(free, next, e) && e.blocks > 0
    ensures var s := Sorted(free + [e]); FreeOk(s, next) && Given(free, next, s, next, e.block, e.blocks)
  {
    var more := free + [e];
    assert more[..|more| - 1] == free;
    SortedStays(free);
    forall i | 0 <= i < |free| ensures free[i].End() <= e.block || e.End() <= free[i].block {
      CleanIsApart(free, next, e, i);
    }
    assert !Available(free, next, e.End() - 1);
    InsertKeeps(e, free);
    InsertElements(e, free);
    var s := InsertSorted(e, free);
    SameElementsFree(s, free, e);
    hide InsertSorted, IsFree;
    forall i | 0 <= i < |s| ensures s[i].End() <= next { assert s[i] in s; }
  }

  lemma WithoutTaken(free: seq<FreeExtent>, next: nat, index: nat)
    requires FreeOk(free, next) && index < |free|
    ensures Taken(free, next, Without(free, index), next, free[index].block, free[index].blocks)
  {
    WithoutOrdered(free, next, index);
    forall b: nat { WithoutFree(free, index, b); }
    forall b: nat | free[index].block <= b < free[index].End() ensures IsFree(free, b) {}
    hide IsFree, Without;
  }

  lemma RemainderClean(f: seq<FreeExtent>, rest: seq<FreeExtent>, next: nat, extent: FreeExtent, back: FreeExtent)
    requires Taken(f, next, rest, next, extent.block, extent.blocks)
    requires extent.block <= back.block && back.End() <= extent.End()
    ensures FreeOk(rest, next) && Clean(rest, next, back)
  {
  }

  lemma SplitTaken(f: seq<FreeExtent>, n: nat, rest: seq<FreeExtent>, extent: FreeExtent, back: FreeExtent,
                   g: seq<FreeExtent>, m: nat)
    requires Taken(f, n, rest, n, extent.block, extent.blocks)
    requires extent.block <= back.block && back.End() == extent.End()
    requires Given(rest, n, g, m, back.block, back.blocks)
    ensures Taken(f, n, g, m, extent.block, back.block - extent.block)
  {
    hide Available, FreeOk;
  }

  lemma NextTaken(free: seq<FreeExtent>, next: nat, required: nat)
    requires FreeOk(free, next)
    ensures Taken(free, next, free, next + required, next, required)
  {
    forall b: nat | IsFree(free, b) ensures b < next {}
  }

  lemma GivenAndTaken(f: seq<FreeExtent>, n: nat, records: Records, id: nat, g: seq<FreeExtent>, m: nat,
                      h: seq<FreeExtent>, o: nat, at: nat, count: nat)
    requires Layout(f, n, records) && (id in records ==> Contiguous(records[id]))
    requires id in records && records[id].Total() > 0 ==> Given(f, n, g, m, records[id].First(), records[id].Total())
    requires id !in records || records[id].Total() == 0 ==> g == f && m == n
    requires Taken(g, m, h, o, at, count)
    ensures Reserved(h, o, records, id, at, count)
  {
    if id in records { forall b: nat { ContiguousOwns(records[id], b); } }
    hide Owns, Available, FreeOk, Contiguous;
    forall q, b: nat | q in records && q != id && Owns(records[q], b) ensures !Available(g, m, b) {
      assert !Available(f, n, b);
      if id in records && records[id].Total() > 0 { assert !Owns(records[id], b); }
    }
    forall q, b: nat | q in records && q != id && Owns(records[q], b) ensures !(at <= b < at + count) {
      assert !Available(g, m, b);
    }
  }

  lemma ReusedReserved(f: seq<FreeExtent>, n: nat, records: Records, id: nat, g: seq<FreeExtent>, m: nat, count: nat)
    requires Layout(f, n, records) && id in records && Contiguous(records[id]) && 0 < count <= records[id].Total()
    requires count == records[id].Total() ==> g == f && m == n
    requires count < records[id].Total() ==>
               Given(f, n, g, m, records[id].First() + count, records[id].Total() - count)
    ensures Reserved(g, m, records, id, records[id].First(), count)
  {
    forall b: nat { ContiguousOwns(records[id], b); }
    hide Owns, Available, FreeOk, Contiguous;
    var at := records[id].First();
    forall b: nat | at <= b < at + count ensures !Available(g, m, b) { assert !Available(f, n, b); }
    forall q, b: nat | q in records && q != id && Owns(records[q], b) ensures !Available(g, m, b) {
      assert !Available(f, n, b) && !Owns(records[id], b);
    }
  }

  /** The tail of a record whose extents follow each other can be given back. */
  lemma OwnRangeClean(f: seq<FreeExtent>, n: nat, records: Records, id: nat, e: FreeExtent)
    requires Layout(f, n, records) && id in records && Contiguous(records[id])
    requires records[id].First() <= e.block && e.End() <= records[id].First() + records[id].Total()
    ensures Clean(f, n, e)
  {
    forall b: nat | e.block <= b < e.End() ensures !Available(f, n, b) { ContiguousOwns(records[id], b); }
  }

  lemma RemovedLayout(f: seq<FreeExtent>, n: nat, records: Records, id: nat, g: seq<FreeExtent>, m: nat)
    requires Layout(f, n, records) && id in records && Contiguous(records[id])
    requires records[id].Total() > 0 ==> Given(f, n, g, m, records[id].First(), records[id].Total())
    requires records[id].Total() == 0 ==> g == f && m == n
    ensures Layout(g, m, records - {id})
  {
    forall b: nat { ContiguousOwns(records[id], b); }
    hide Owns, Available, FreeOk, Contiguous;
    var rest := records - {id};
    forall q, b: nat | q in rest && Owns(rest[q], b) ensures !Available(g, m, b) {
      assert !Available(f, n, b) && !Owns(records[id], b);
    }
  }

  function Appended(r: Record, at: nat, count: nat, len: nat): Record {
    Record(r.size + len, r.extents + [Extent(at, count, len)])
  }

  lemma AppendedOwns(r: Record, at: nat, count: nat, len: nat, b: nat)
    ensures Owns(Appended(r, at, count, len), b) <==> Owns(r, b) || at <= b < at + count
  {
    var a := Appended(r, at, count, len);
    if i :| 0 <= i < |r.extents| && r.extents[i].block <= b < r.extents[i].End() {
      assert a.extents[i] == r.extents[i];
    }
    if at <= b < at + count { assert a.extents[|r.extents|].block <= b < a.extents[|r.extents|].End(); }
    if i :| 0 <= i < |a.extents| && a.extents[i].block <= b < a.extents[i].End() {
      if i < |r.extents| { assert a.extents[i] == r.extents[i]; }
    }
  }

  lemma AppendedLayout(f: seq<FreeExtent>, n: nat, records: Records, id: nat, g: seq<FreeExtent>, m: nat,
                       at: nat, count: nat, len: nat)
    requires Layout(f, n, records) && id in records && Taken(f, n, g, m, at, count)
    ensures Layout(g, m, records[id := Appended(records[id], at, count, len)])
  {
    forall b: nat { AppendedOwns(records[id], at, count, len, b); }
    var more := records[id := Appended(records[id], at, count, len)];
    hide Owns, Available, FreeOk, Appended;
    forall p, b: nat | p in more && Owns(more[p], b) ensures !Available(g, m, b) {
      if p != id { assert more[p] == records[p]; }
      if Owns(records[p], b) { assert !Available(f, n, b); }
    }
    forall p, q, b: nat | p in more && q in more && p != q && Owns(more[p], b) ensures !Owns(more[q], b) {
      AppendedApart(f, n, records, id, g, m, at, count, len, p, q, b);
    }
  }

  lemma AppendedApart(f: seq<FreeExtent>, n: nat, records: Records, id: nat, g: seq<FreeExtent>, m: nat,
                      at: nat, count: nat, len: nat, p: nat, q: nat, b: nat)
    requires Layout(f, n, records) && id in records && Taken(f, n, g, m, at, count)
    requires p in records && q in records && p != q
    requires var more := records[id := Appended(records[id], at, count, len)]; Owns(more[p], b)
    ensures var more := records[id := Appended(records[id], at, count, len)]; !Owns(more[q], b)
  {
    AppendedOwns(records[id], at, count, len, b);
    hide Owns, FreeOk, Appended, Available;
    if Owns(records[p], b) { assert !Available(f, n, b) && !Owns(records[q], b); }
    if p == id && at <= b < at + count { assert Available(f, n, b); }
  }

  /** The new extent is where the record's last one ends exactly if the record stays in one piece. */
  lemma AppendedContiguous(r: Record, at: nat, count: nat, len: nat)
    requires r.extents != []
    ensures Contiguous(Appended(r, at, count, len)) <==> Contiguous(r) && at == r.extents[|r.extents| - 1].End()
  {
    var a := Appended(r, at, count, len);
    if Contiguous(a) {
      assert a.extents[|r.extents|].block == a.extents[|r.extents| - 1].End();
      forall i | 0 < i < |r.extents| ensures r.extents[i].block == r.extents[i - 1].End() {
        assert a.extents[i].block == a.extents[i - 1].End();
      }
    }
  }

  lemma AppendedReads(bs: nat, device: Device, r: Record, at: nat, count: nat, extra: Bytes)
    requires bs > 0 && Rows(bs, device) && WellRecord(bs, device, r) && extra != []
    requires NeededBlocks(bs, |extra|) <= count
    requires forall k: nat :: at <= k < at + count ==> !Owns(r, k)
    ensures var after, a := AfterWrite(bs, device, at, count, extra), Appended(r, at, count, |extra|);
            Rows(bs, after) && WellRecord(bs, after, a)
            && ReadRecord(bs, after, a) == ReadRecord(bs, device, r) + extra
  {
    var after, a := AfterWrite(bs, device, at, count, extra), Appended(r, at, count, |extra|);
    var e := Extent(at, count, |extra|);
    WrittenReads(bs, device, at, count, extra);
    StoredFits(bs, device, at, Blocks(bs, extra, count), r);
    StoredAt(bs, device, at, Blocks(bs, extra, count));
    assert NewRecord(at, count, |extra|).extents == [e];
    assert FitsOn(bs, after, e) by { assert FitsOn(bs, after, [e][0]); }
    OneExtent(bs, after, e);
    RecordIsExtents(bs, after, NewRecord(at, count, |extra|));
    assert ReadBlocks(bs, after, at, |extra|) == extra;
    hide Stored, Blocks, FitsOn, ReadBlocks;
    forall k | 0 <= k < |device| && HoldsBytes(bs, r, k) ensures device[k] == after[k] {
      HoldingIsOwning(bs, device, r, k);
    }
    RecordDepends(bs, device, after, r);
    assert a.extents[..|a.extents| - 1] == r.extents && a.extents[|a.extents| - 1] == e;
    forall i | 0 <= i < |a.extents| ensures FitsOn(bs, after, a.extents[i]) {
      if i < |r.extents| { assert a.extents[i] == r.extents[i]; }
    }
    RecordIsExtents(bs, after, r);
    RecordIsExtents(bs, after, a);
  }

  lemma LayoutFreeOk(free: seq<FreeExtent>, next: nat, records: Records)
    requires Layout(free, next, records)
    ensures FreeOk(free, next)
  {
  }

  lemma GivenFreeOk(f: seq<FreeExtent>, n: nat, g: seq<FreeExtent>, m: nat, at: nat, count: nat)
    requires Given(f, n, g, m, at, count)
    ensures FreeOk(g, m)
  {
  }

  lemma LayoutApart(free: seq<FreeExtent>, next: nat, records: Records)
    requires Layout(free, next, records)
    ensures forall p, q, b: nat ::
              p in records && q in records && p != q && Owns(records[p], b) ==> !Owns(records[q], b)
  {
  }

  ghost function ContentsOf(bs: nat, device: Device, records: Records): map<nat, Bytes>
    requires bs > 0 && WellKept(bs, device, records)
  {
    map id | id in records :: ReadRecord(bs, device, records[id])
  }

  /** What all records hold after a write. */
  lemma WrittenContents(bs: nat, device: Device, records: Records, id: nat, at: nat, count: nat, bytes: Bytes)
    requires bs > 0 && WellKept(bs, device, records) && NeededBlocks(bs, |bytes|) <= count
    ensures var after := AfterWrite(bs, device, at, count, bytes);
            var more := records[id := NewRecord(at, count, |bytes|)];
            && WellKept(bs, after, more) && ContentsOf(bs, after, more)[id] == bytes
            && (RangeFree(bs, records, id, at, count) ==>
                  ContentsOf(bs, after, more) == ContentsOf(bs, device, records)[id := bytes])
  {
    var after := AfterWrite(bs, device, at, count, bytes);
    var more := records[id := NewRecord(at, count, |bytes|)];
    AfterWriteKept(bs, device, at, count, bytes, records);
    WrittenReads(bs, device, at, count, bytes);
    hide AfterWrite, WellRecord, ReadRecord, NewRecord;
    if RangeFree(bs, records, id, at, count) {
      FreeSpares(bs, device, records, id, at, count, bytes);
      forall q | q in more ensures ContentsOf(bs, after, more)[q] == ContentsOf(bs, device, records)[id := bytes][q] {
        if q != id { assert more[q] == records[q]; }
      }
    }
  }

  lemma EmptyRecord(bs: nat, device: Device, r: Record)
    requires bs > 0 && Rows(bs, device) && WellRecord(bs, device, r) && (r.extents == [] || r.size == 0)
    ensures r.extents == [] && Contiguous(r) && ReadRecord(bs, device, r) == []
  {
    RecordIsExtents(bs, device, r);
  }

  lemma EmptyAdded(bs: nat, device: Device, records: Records, id: nat, at: nat, count: nat)
    requires bs > 0 && WellKept(bs, device, records) && id !in records
    ensures var more := records[id := NewRecord(at, count, 0)];
            WellKept(bs, device, more) && ContentsOf(bs, device, more) == ContentsOf(bs, device, records)[id := []]
  {
    var more := records[id := NewRecord(at, count, 0)];
    EmptyRecord(bs, device, more[id]);
    hide ReadRecord;
  }

  lemma NothingAppended(bs: nat, device: Device, records: Records, id: nat)
    requires bs > 0 && WellKept(bs, device, records)
    ensures id in records ==> |ContentsOf(bs, device, records)[id]| == records[id].size
  {
    if id in records { RecordIsExtents(bs, device, records[id]); }
  }

  lemma AppendedSize(r: Record, at: nat, count: nat, len: nat)
    ensures Appended(r, at, count, len).size == r.size + len
  {
  }

  lemma AppendedKept(bs: nat, device: Device, records: Records, id: nat, at: nat, count: nat, extra: Bytes)
    requires bs > 0 && WellKept(bs, device, records) && id in records && extra != []
    requires NeededBlocks(bs, |extra|) <= count
    ensures WellKept(bs, AfterWrite(bs, device, at, count, extra),
                     records[id := Appended(records[id], at, count, |extra|)])
  {
    AfterWriteKept(bs, device, at, count, extra, records);
    WrittenReads(bs, device, at, count, extra);
    var after, r := AfterWrite(bs, device, at, count, extra), records[id];
    var a := Appended(r, at, count, |extra|);
    hide AfterWrite, DataBlocks;
    forall i | 0 <= i < |a.extents| ensures FitsOn(bs, after, a.extents[i]) {
      if i < |r.extents| {
        assert WellRecord(bs, after, r) && FitsOn(bs, after, r.extents[i]);
      } else {
        assert FitsOn(bs, after, NewRecord(at, count, |extra|).extents[0]);
      }
    }
    assert a.extents[..|a.extents| - 1] == r.extents;
  }

  lemma AppendedAll(bs: nat, device: Device, f: seq<FreeExtent>, n: nat, records: Records, id: nat,
                    g: seq<FreeExtent>, m: nat, at: nat, count: nat, extra: Bytes)
    requires bs > 0 && WellKept(bs, device, records) && id in records && extra != []
    requires Layout(f, n, records) && Taken(f, n, g, m, at, count) && NeededBlocks(bs, |extra|) <= count
    ensures var after := AfterWrite(bs, device, at, count, extra);
            var more := records[id := Appended(records[id], at, count, |extra|)];
            WellKept(bs, after, more)
            && ContentsOf(bs, after, more) ==
                 ContentsOf(bs, device, records)[id := ContentsOf(bs, device, records)[id] + extra]
  {
    var after := AfterWrite(bs, device, at, count, extra);
    var more := records[id := Appended(records[id], at, count, |extra|)];
    AppendedKept(bs, device, records, id, at, count, extra);
    forall k: nat | at <= k < at + count ensures !Owns(records[id], k) { assert Available(f, n, k); }
    AppendedReads(bs, device, records[id], at, count, extra);
    forall q, k | q in records && q != id && at <= k < at + count ensures !HoldsBytes(bs, records[q], k) {
      assert Available(f, n, k);
      if HoldsBytes(bs, records[q], k) { HoldingIsOwning(bs, device, records[q], k); }
    }
    FreeSpares(bs, device, records, id, at, count, extra);
    AfterWriteKept(bs, device, at, count, extra, records);
    hide AfterWrite, WellRecord, ReadRecord, Appended, Owns, Available, HoldsBytes;
    forall q | q in more ensures ContentsOf(bs, after, more)[q] ==
                                 ContentsOf(bs, device, records)[id := ContentsOf(bs, device, records)[id] + extra][q]
    {
      if q != id { assert more[q] == records[q]; }
    }
  }

  // ----- runs -----

  /** What is asked of a block store. */
  datatype BlockRequest =
    | Replace(id: nat, bytes: Bytes)
    | Extend(id: nat, extra: Bytes)
    | Drop(id: nat)
    | Copy(source: nat, target: nat)

  /** What a map from ids to contents makes of it. */
  function Applied(m: map<nat, Bytes>, request: BlockRequest): map<nat, Bytes> {
    match request
    case Replace(id, bytes) => m[id := bytes]
    case Extend(id, extra) => if extra == [] then m else m[id := (if id in m then m[id] else []) + extra]
    case Drop(id) => m - {id}
    case Copy(source, target) => if source in m then m[target := m[source]] else m
  }

  function AppliedAll(m: map<nat, Bytes>, requests: seq<BlockRequest>): map<nat, Bytes> {
    if requests == [] then m else Applied(AppliedAll(m, requests[..|requests| - 1]), requests[|requests| - 1])
  }

  lemma AppliedNext(m: map<nat, Bytes>, requests: seq<BlockRequest>, n: nat)
    requires n < |requests|
    ensures AppliedAll(m, requests[..n + 1]) == Applied(AppliedAll(m, requests[..n]), requests[n])
  {
    assert requests[..n + 1][..n] == requests[..n];
  }

  class BlockStore {
    const blockSize: nat
    const policy: Policy
    var next: nat
    var free: seq<FreeExtent>
    var records: Records
    var device: Device

    /** Every record lies on the device with room for its bytes. */
    ghost predicate Valid()
      reads this
    {
      blockSize > 0 && WellKept(blockSize, device, records)
    }

    ghost predicate InLayout()
      reads this
    {
      Layout(free, next, records)
    }

    ghost function Contents(): map<nat, Bytes>
      requires Valid()
      reads this
    {
      ContentsOf(blockSize, device, records)
    }

    constructor (blockSize: nat, policy: Policy, capacity: nat)
      requires blockSize > 0
      ensures Valid() && InLayout() && this.blockSize == blockSize && this.policy == policy
      ensures records == map[] && free == [] && next == 0 && Contents() == map[]
    {
      this.blockSize, this.policy := blockSize, policy;
      next, free, records := 0, [], map[];
      device := seq(capacity, _ => Zeros(blockSize));
    }

    /** The first free extent that is large enough, or the first of the smallest ones. */
    method FindFree(required: nat) returns (found: Option<nat>)
      ensures found.None? ==> forall i :: 0 <= i < |free| ==> free[i].blocks < required
      ensures found.Some? ==> found.value < |free| && free[found.value].blocks >= required
      ensures found.Some? && policy.bestFit ==>
                forall i :: 0 <= i < |free| && free[i].blocks >= required ==>
                  free[found.value].blocks <= free[i].blocks
                  && (free[found.value].blocks == free[i].blocks ==> found.value <= i)
      ensures found.Some? && !policy.bestFit ==> forall i :: 0 <= i < found.value ==> free[i].blocks < required
    {
      found := None;
      for i := 0 to |free|
        invariant found.None? ==> forall k :: 0 <= k < i ==> free[k].blocks < required
        invariant found.Some? ==> found.value < i && free[found.value].blocks >= required
        invariant found.Some? && policy.bestFit ==>
                    forall k :: 0 <= k < i && free[k].blocks >= required ==>
                      free[found.value].blocks <= free[k].blocks
                      && (free[found.value].blocks == free[k].blocks ==> found.value <= k)
        invariant found.Some? && !policy.bestFit ==> forall k :: 0 <= k < found.value ==> free[k].blocks < required
      {
        if free[i].blocks >= required
           && (found.None? || (policy.bestFit && free[i].blocks < free[found.value].blocks))
        {
          found := Some(i);
        }
      }
    }

    /** Free extents at the end of what has been reached are forgotten again. */
    method TrimFreeTail()
      modifies this`free, this`next
      ensures FreeOk(old(free), old(next)) ==> SameFree(old(free), old(next), free, next)
      ensures |old(free)| == 1 ==>
                if old(free)[0].End() == old(next) then free == [] && next == old(free)[0].block
                else free == old(free) && next == old(next)
    {
      hide FreeOk, Available;
      while free != [] && free[|free| - 1].End() == next
        invariant FreeOk(old(free), old(next)) ==> SameFree(old(free), old(next), free, next)
        invariant (free == old(free) && next == old(next))
                  || (|free| < |old(free)|
                      && (|old(free)| == 1 ==> next == old(free)[0].block && old(free)[0].End() == old(next)))
        decreases |free|
      {
        if FreeOk(free, next) { TrimmedSame(free, next); }
        next := free[|free| - 1].block;
        free := free[..|free| - 1];
      }
    }

    /** Neighbours on the sorted list become one. */
    method MergeNeighbours(sorted: seq<FreeExtent>) returns (merged: seq<FreeExtent>)
      ensures forall n: nat :: FreeOk(sorted, n) ==> SameFree(sorted, n, merged, n)
      ensures |sorted| == 1 ==> merged == sorted
    {
      hide IsFree;
      merged := [];
      for i := 0 to |sorted|
        invariant |sorted| == 1 ==> merged == sorted[..i]
        invariant Ordered(sorted) ==> MergedSoFar(sorted, i, merged)
      {
        var extent := sorted[i];
        if Ordered(sorted) { MergedNext(sorted, i, merged); }
        hide Ordered, MergedSoFar;
        if merged != [] && merged[|merged| - 1].End() >= extent.block {
          var last := merged[|merged| - 1];
          merged := merged[|merged| - 1 := last.(blocks := SatSub(extent.End(), last.block))];
        } else {
          merged := merged + [extent];
        }
      }
      forall n: nat | FreeOk(sorted, n) ensures SameFree(sorted, n, merged, n) { MergedAll(sorted, merged, n); }
    }

    /** Sorting the free list and merging neighbours. */
    method NormalizeFreeExtents()
      modifies this`free, this`next
      ensures FreeOk(Sorted(old(free)), old(next)) ==> SameFree(Sorted(old(free)), old(next), free, next)
      ensures |old(free)| == 1 ==>
                if policy.trimTail && old(free)[0].End() == old(next) then free == [] && next == old(free)[0].block
                else free == old(free) && next == old(next)
    {
      hide FreeOk, Available, Sorted;
      if |free| == 1 { SortedOne(free); }
      var sorted := Sorted(free);
      free := MergeNeighbours(sorted);
      if policy.trimTail {
        ghost var f, n := free, next;
        TrimFreeTail();
        if FreeOk(sorted, n) { SameFreeTwice(sorted, n, f, n, free, next); }
      }
    }

    /** Putting a range back on the free list. */
    method InsertFreeExtent(e: FreeExtent)
      modifies this`free, this`next
      ensures e.blocks == 0 ==> free == old(free) && next == old(next)
      ensures e.blocks > 0 && FreeOk(old(free), old(next)) && Clean(old(free), old(next), e) ==>
                Given(old(free), old(next), free, next, e.block, e.blocks)
      ensures e.blocks > 0 && old(free) == [] ==>
                if policy.trimTail && e.End() == old(next) then free == [] && next == e.block
                else free == [e] && next == old(next)
    {
      hide FreeOk, Available, Sorted, Clean, Given, SameFree;
      if e.blocks == 0 { return; }
      ghost var f, n := free, next;
      ghost var s := Sorted(free + [e]);
      if FreeOk(f, n) && Clean(f, n, e) { PushedSorted(f, n, e); }
      if free == [] {
        assert free + [e] == [e];
        SortedOne([e]);
      }
      free := free + [e];
      if policy.coalesce {
        NormalizeFreeExtents();
      } else {
        free := Sorted(free);
        if policy.trimTail { TrimFreeTail(); } else { Same(free, next); }
      }
      if FreeOk(f, n) && Clean(f, n, e) { SameFreeGiven(f, n, s, n, free, next, e.block, e.blocks); }
    }

    /** Blocks for new data: from the free list if an extent there is large enough, otherwise behind
        everything reached so far. */
    method AllocateExtent(required: nat) returns (at: nat, count: nat)
      requires required > 0
      modifies this`free, this`next
      ensures count >= required
      ensures FreeOk(old(free), old(next)) ==> Taken(old(free), old(next), free, next, at, count)
      ensures old(free) == [] ==> at == old(next) && count == required && next == old(next) + required && free == []
      ensures |old(free)| == 1 && old(free)[0].blocks == required ==>
                at == old(free)[0].block && count == required && free == [] && next == old(next)
    {
      var index := FindFree(required);
      if index.Some? {
        var extent := free[index.value];
        if FreeOk(free, next) { WithoutTaken(free, next, index.value); }
        free := Without(free, index.value);
        ghost var rest := free;
        var remainder := SatSub(extent.blocks, required);
        if remainder >= Max(policy.splitThreshold, 1) {
          var back := FreeExtent(extent.block + required, remainder);
          if FreeOk(old(free), next) { RemainderClean(old(free), rest, next, extent, back); }
          InsertFreeExtent(back);
          if FreeOk(old(free), old(next)) {
            SplitTaken(old(free), old(next), rest, extent, back, free, next);
          }
          return extent.block, required;
        }
        return extent.block, extent.blocks;
      }
      at, count := next, required;
      if FreeOk(free, next) { NextTaken(free, next, required); }
      next := next + required;
    }

    /** The blocks a write goes to. A record with enough blocks is overwritten from its first block on,
        as if its extents followed each other; otherwise as many blocks from there on are given back
        and others are taken. */
    method Place(id: nat, needed: nat) returns (at: nat, count: nat)
      requires needed > 0
      modifies this`free, this`next
      ensures count >= needed
      ensures id in records && records[id].Total() >= needed ==> at == records[id].First() && count == needed
      ensures old(InLayout()) && (id in records ==> Contiguous(records[id])) ==>
                Reserved(free, next, records, id, at, count)
      ensures id !in records && old(free) == [] ==>
                at == old(next) && count == needed && next == old(next) + needed && free == []
      ensures id !in records && |old(free)| == 1 && old(free)[0].blocks == needed ==>
                at == old(free)[0].block && count == needed && free == [] && next == old(next)
      ensures id in records && records[id].Total() == needed ==> free == old(free) && next == old(next)
    {
      hide FreeOk, Available, Contiguous, Reserved, Taken, Given, Clean, Layout;
      ghost var f, n := free, next;
      ghost var tidy := Layout(f, n, records) && (id in records ==> Contiguous(records[id]));
      if tidy { LayoutFreeOk(f, n, records); }
      if id in records && records[id].Total() >= needed {
        var existing := records[id].Total();
        at, count := records[id].First(), needed;
        if existing > needed {
          var tail := FreeExtent(at + needed, existing - needed);
          if tidy { OwnRangeClean(f, n, records, id, tail); }
          InsertFreeExtent(tail);
        }
        if tidy { ReusedReserved(f, n, records, id, free, next, needed); }
      } else {
        if id in records {
          var previous := FreeExtent(records[id].First(), records[id].Total());
          if tidy { OwnRangeClean(f, n, records, id, previous); }
          InsertFreeExtent(previous);
        }
        ghost var g, m := free, next;
        if tidy && id in records && records[id].Total() > 0 {
          GivenFreeOk(f, n, g, m, records[id].First(), records[id].Total());
        }
        at, count := AllocateExtent(Max(needed, 1));
        if tidy { GivenAndTaken(f, n, records, id, g, m, free, next, at, count); }
      }
    }

    /** Replace the content of a record. The new content is stored whatever the layout is; the other
        records keep theirs when no block of the range holds their bytes, which is certain if the old
        extents followed each other. */
    method Write(id: nat, bytes: Bytes) returns (size: nat, ghost at: nat, ghost count: nat)
      requires Valid()
      modifies this`free, this`next, this`records, this`device
      ensures Valid() && size == |bytes|
      ensures device == AfterWrite(blockSize, old(device), at, count, bytes)
      ensures records == old(records)[id := NewRecord(at, count, |bytes|)]
      ensures Contents().Keys == old(records).Keys + {id} && Contents()[id] == bytes
      ensures RangeFree(blockSize, old(records), id, at, count) ==> Contents() == old(Contents())[id := bytes]
      ensures old(InLayout()) && (id in old(records) ==> Contiguous(old(records)[id])) ==>
                InLayout() && RangeFree(blockSize, old(records), id, at, count)
      ensures var needed := NeededBlocks(blockSize, |bytes|);
              && count >= needed
              && (id in old(records) && old(records)[id].Total() >= needed ==>
                    at == old(records)[id].First() && count == needed)
              && (id !in old(records) && old(free) == [] ==>
                    at == old(next) && count == needed && next == old(next) + needed && free == [])
              && (id !in old(records) && |old(free)| == 1 && old(free)[0].blocks == needed ==>
                    at == old(free)[0].block && count == needed && free == [] && next == old(next))
              && (id in old(records) && old(records)[id].Total() == needed ==> free == old(free) && next == old(next))
    {
      hide Reserved, RangeFree, Contiguous, AfterWrite, WellRecord, Layout, ReadRecord;
      NeededIsData(blockSize, |bytes|);
      var needed := NeededBlocks(blockSize, |bytes|);
      ghost var before, content := records, Contents();
      var start, blocks := Place(id, needed);
      at, count := start, blocks;
      if Reserved(free, next, records, id, at, count) {
        ReservedIsFree(blockSize, device, free, next, records, id, at, count);
      }
      if Layout(old(free), old(next), records) && Reserved(free, next, records, id, at, count) {
        LayoutApart(old(free), old(next), records);
        ReservedLayout(free, next, records, id, at, count, |bytes|);
      }
      WrittenContents(blockSize, device, records, id, at, count, bytes);
      records := records - {id};
      device := AfterWrite(blockSize, device, start, blocks, bytes);
      records := records[id := NewRecord(start, blocks, |bytes|)];
      assert records == before[id := NewRecord(start, blocks, |bytes|)];
      size := |bytes|;
    }

    /** The bytes of a record. */
    method Read(id: nat) returns (bytes: Option<Bytes>)
      requires Valid()
      ensures bytes == if id in records then Some(Contents()[id]) else None
    {
      bytes := if id in records then Some(ReadRecord(blockSize, device, records[id])) else None;
    }

    /** Appending puts the new bytes into an extent of their own and touches no other record, but the
        record stays in one piece only if that extent happens to be next. */
    method AppendToInode(id: nat, extra: Bytes) returns (size: nat, ghost at: nat, ghost count: nat)
      requires Valid()
      modifies this`free, this`next, this`records, this`device
      ensures Valid()
      ensures old(InLayout()) ==> InLayout() && Contents() == old(AppendedContents(id, extra))
      ensures extra == [] ==> records == old(records) && free == old(free) && next == old(next) && device == old(device)
      ensures extra != [] && id in old(records) && old(records)[id].extents != [] ==>
                && records == old(records)[id := Appended(old(records)[id], at, count, |extra|)]
                && device == AfterWrite(blockSize, old(device), at, count, extra)
                && (Contiguous(records[id]) <==>
                      Contiguous(old(records)[id])
                      && at == old(records)[id].extents[|old(records)[id].extents| - 1].End())
                && (old(free) == [] ==>
                      at == old(next) && count == NeededBlocks(blockSize, |extra|) && next == at + count && free == [])
      ensures id in records ==> size == records[id].size
    {
      hide Layout, Contiguous, AfterWrite, WellRecord, ReadRecord, Taken, FreeOk, Available, RangeFree, Appended;
      at, count := 0, 0;
      if extra == [] {
        NothingAppended(blockSize, device, records, id);
        size := if id in records then records[id].size else 0;
        return;
      }
      if id !in records || records[id].extents == [] || records[id].size == 0 {
        if id in records { EmptyRecord(blockSize, device, records[id]); }
        assert [] + extra == extra;
        size, at, count := Write(id, extra);
        return;
      }
      NeededIsData(blockSize, |extra|);
      ghost var f, n, tidy := free, next, Layout(free, next, records);
      if tidy { LayoutFreeOk(f, n, records); }
      var start, blocks := AllocateExtent(NeededBlocks(blockSize, |extra|));
      at, count := start, blocks;
      if tidy {
        AppendedLayout(f, n, records, id, free, next, start, blocks, |extra|);
        AppendedAll(blockSize, device, f, n, records, id, free, next, start, blocks, extra);
      }
      AppendedKept(blockSize, device, records, id, start, blocks, extra);
      AppendedContiguous(records[id], start, blocks, |extra|);
      device := AfterWrite(blockSize, device, start, blocks, extra);
      records := records[id := Appended(records[id], start, blocks, |extra|)];
      AppendedSize(old(records)[id], start, blocks, |extra|);
      size := records[id].size;
    }

    ghost function AppendedContents(id: nat, extra: Bytes): map<nat, Bytes>
      requires Valid()
      reads this
    {
      if extra == [] then Contents() else Contents()[id := (if id in records then Contents()[id] else []) + extra]
    }

    /** Removing a record gives back as many blocks from its first one on as it has. */
    method Remove(id: nat) returns (bytes: Option<Bytes>)
      requires Valid()
      modifies this`free, this`next, this`records
      ensures Valid()
      ensures bytes == if id in old(records) then Some(old(Contents())[id]) else None
      ensures records == old(records) - {id} && Contents() == old(Contents()) - {id}
      ensures old(InLayout()) && (id in old(records) ==> Contiguous(old(records)[id])) ==> InLayout()
      ensures id in old(records) && old(records)[id].Total() > 0 && old(free) == [] ==>
                var e := FreeExtent(old(records)[id].First(), old(records)[id].Total());
                if policy.trimTail && e.End() == old(next) then free == [] && next == e.block
                else free == [e] && next == old(next)
    {
      hide Layout, Contiguous, WellRecord, ReadRecord, FreeOk, Available, Clean, Given;
      if id !in records {
        assert records - {id} == records;
        return None;
      }
      var rec := records[id];
      bytes := Some(ReadRecord(blockSize, device, rec));
      ghost var f, n, before := free, next, records;
      ghost var tidy := Layout(f, n, before) && Contiguous(rec);
      records := records - {id};
      var freed := FreeExtent(rec.First(), rec.Total());
      if tidy {
        LayoutFreeOk(f, n, before);
        OwnRangeClean(f, n, before, id, freed);
      }
      InsertFreeExtent(freed);
      if tidy { RemovedLayout(f, n, before, id, free, next); }
    }

    /** A clone gets blocks of its own. */
    method CloneForInode(source: nat, target: nat) returns (ok: bool, ghost at: nat, ghost count: nat)
      requires Valid() && target !in records
      modifies this`free, this`next, this`records, this`device
      ensures Valid() && ok == (source in old(records))
      ensures !ok ==> records == old(records) && device == old(device) && free == old(free) && next == old(next)
      ensures ok ==> records == old(records)[target := NewRecord(at, count, |old(Contents())[source]|)]
      ensures old(InLayout()) ==>
                && InLayout()
                && Contents() == if ok then old(Contents())[target := old(Contents())[source]] else old(Contents())
    {
      hide Layout, Contiguous, AfterWrite, WellRecord, ReadRecord, Taken, FreeOk, Available, RangeFree, NewRecord,
        Reserved;
      at, count := 0, 0;
      if source !in records { return false, at, count; }
      var bytes := ReadRecord(blockSize, device, records[source]);
      NeededIsData(blockSize, |bytes|);
      ghost var f, n, tidy := free, next, Layout(free, next, records);
      if tidy { LayoutFreeOk(f, n, records); }
      var start, blocks := AllocateExtent(NeededBlocks(blockSize, |bytes|));
      at, count := start, blocks;
      if tidy {
        GivenAndTaken(f, n, records, target, f, n, free, next, start, blocks);
        ReservedIsFree(blockSize, device, free, next, records, target, start, blocks);
        LayoutApart(f, n, records);
        ReservedLayout(free, next, records, target, start, blocks, |bytes|);
      }
      if bytes != [] {
        WrittenContents(blockSize, device, records, target, start, blocks, bytes);
        device := AfterWrite(blockSize, device, start, blocks, bytes);
      } else {
        EmptyAdded(blockSize, device, records, target, start, blocks);
      }
      records := records[target := NewRecord(start, blocks, |bytes|)];
      ok := true;
    }
  }

  /** The request replaces or removes a record whose extents do not follow each other, or copies onto a
      record. */
  predicate Scattered(records: Records, request: BlockRequest) {
    match request
    case Replace(id, _) => id in records && !Contiguous(records[id])
    case Extend(_, _) => false
    case Drop(id) => id in records && !Contiguous(records[id])
    case Copy(_, target) => target in records
  }

  /** Serving one request with the call it stands for. */
  method ServeBlock(s: BlockStore, request: BlockRequest)
    requires s.Valid() && s.InLayout() && !Scattered(s.records, request)
    modifies s
    ensures s.Valid() && s.InLayout() && s.Contents() == Applied(old(s.Contents()), request)
  {
    assert s.Contents().Keys == s.records.Keys;
    hide Layout, Contiguous, AfterWrite, RangeFree, WellKept, ContentsOf, ReadRecord, Appended;
    match request {
      case Replace(id, bytes) =>
        var n, at, count := s.Write(id, bytes);
      case Extend(id, extra) =>
        var n, at, count := s.AppendToInode(id, extra);
      case Drop(id) =>
        var bytes := s.Remove(id);
      case Copy(source, target) =>
        var ok, at, count := s.CloneForInode(source, target);
    }
  }

  /** The store is a map from ids to contents over any run in which no record is replaced or removed
      that is not in one piece. */
  method ServeBlocks(s: BlockStore, requests: seq<BlockRequest>) returns (served: nat)
    requires s.Valid() && s.InLayout()
    modifies s
    ensures s.Valid() && s.InLayout() && served <= |requests|
    ensures s.Contents() == AppliedAll(old(s.Contents()), requests[..served])
    ensures served < |requests| ==> Scattered(s.records, requests[served])
  {
    hide Layout, Applied, AppliedAll, Scattered, WellKept, ContentsOf;
    served := 0;
    ghost var first := s.Contents();
    NothingApplied(first);
    while served < |requests| && !Scattered(s.records, requests[served])
      invariant served <= |requests| && s.Valid() && s.InLayout()
      invariant s.Contents() == AppliedAll(first, requests[..served])
    {
      AppliedNext(first, requests, served);
      ServeBlock(s, requests[served]);
      served := served + 1;
    }
  }

  lemma NothingApplied(m: map<nat, Bytes>)
    ensures AppliedAll(m, []) == m
  {
  }

  // ----- two files in each other's blocks -----

  /** Two records of one block each. */
  method TwoRecords(policy: Policy, capacity: nat, x: Bytes, y: Bytes) returns (s: BlockStore)
    requires |x| == |y| > 0
    ensures fresh(s) && s.Valid() && s.InLayout() && s.blockSize == |x| && s.policy == policy
    ensures s.free == [] && s.next == 2
    ensures s.records == map[1 := Record(|x|, [Extent(0, 1, |x|)]), 2 := Record(|x|, [Extent(1, 1, |x|)])]
    ensures s.Contents() == map[1 := x, 2 := y]
  {
    hide Layout, Contiguous, AfterWrite, ReadRecord, RangeFree, WellKept;
    s := new BlockStore(|x|, policy, capacity);
    NeededIsData(|x|, |x|);
    var n0, at0, count0 := s.Write(1, x);
    var n1, at1, count1 := s.Write(2, y);
  }

  /** One of them extended behind the other: its blocks 0 and 2 enclose the other's block 1. */
  method ExtendBehind(policy: Policy, capacity: nat, x: Bytes, y: Bytes, z: Bytes) returns (s: BlockStore)
    requires |x| == |y| == |z| > 0
    ensures fresh(s) && s.Valid() && s.InLayout() && s.blockSize == |x| && s.policy == policy
    ensures s.free == [] && s.next == 3
    ensures s.records == map[1 := Record(2 * |x|, [Extent(0, 1, |x|), Extent(2, 1, |x|)]),
                             2 := Record(|x|, [Extent(1, 1, |x|)])]
    ensures s.Contents() == map[1 := x + z, 2 := y]
  {
    hide Layout, Contiguous, AfterWrite, ReadRecord, RangeFree, WellKept, ContentsOf;
    s := TwoRecords(policy, capacity, x, y);
    NeededIsData(|x|, |x|);
    ghost var before := s.records;
    var n2, at2, count2 := s.AppendToInode(1, z);
    assert [Extent(0, 1, |x|)] + [Extent(2, 1, |x|)] == [Extent(0, 1, |x|), Extent(2, 1, |x|)];
    assert s.records == before[1 := Record(2 * |x|, [Extent(0, 1, |x|), Extent(2, 1, |x|)])];
    assert map[1 := x, 2 := y][1 := x + z] == map[1 := x + z, 2 := y];
  }

  lemma EnclosedTotal(bs: nat)
    ensures Record(2 * bs, [Extent(0, 1, bs), Extent(2, 1, bs)]).Total() == 2
    ensures !Contiguous(Record(2 * bs, [Extent(0, 1, bs), Extent(2, 1, bs)]))
  {
    var e := [Extent(0, 1, bs), Extent(2, 1, bs)];
    assert e[..1] == [e[0]] && e[..1][..0] == [] && TotalBlocks([]) == 0;
    assert TotalBlocks([e[0]]) == 1;
  }

  /** Reading the enclosed block after two blocks have been written from block 0 on. */
  lemma EnclosedReads(bs: nat, device: Device, w: Bytes)
    requires bs > 0 && Rows(bs, device) && |w| == 2 * bs
    ensures var after, r := AfterWrite(bs, device, 0, 2, w), Record(bs, [Extent(1, 1, bs)]);
            Rows(bs, after) && WellRecord(bs, after, r) && ReadRecord(bs, after, r) == w[bs..]
  {
    var blocks := Blocks(bs, w, 2);
    var after, r := Stored(bs, device, 0, blocks), Record(bs, [Extent(1, 1, bs)]);
    StoredAt(bs, device, 0, blocks);
    StoredRows(bs, device, 0, blocks);
    assert blocks[1] == w[bs..] + Zeros(0) == w[bs..];
    assert FitsOn(bs, after, r.extents[0]);
    OneExtent(bs, after, r.extents[0]);
    hide Stored;
    RecordIsExtents(bs, after, r);
  }

  /** Overwriting the extended record with as many bytes as it had puts half of them into the other. */
  method OverwriteHitsNeighbour(policy: Policy, capacity: nat, x: Bytes, y: Bytes, z: Bytes, w: Bytes)
    returns (neighbour: Option<Bytes>)
    requires |x| == |y| == |z| > 0 && |w| == 2 * |x|
    ensures neighbour == Some(w[|x|..])
  {
    var bs := |x|;
    hide Layout, Contiguous, RangeFree, ReadRecord;
    var s := ExtendBehind(policy, capacity, x, y, z);
    EnclosedTotal(bs);
    NeededIsData(bs, 2 * bs);
    EnclosedReads(bs, s.device, w);
    var n, at, count := s.Write(1, w);
    neighbour := s.Read(2);
  }

  /** Removing it gives the other's block away: the next record of that size is stored there. */
  method RemoveGivesNeighbourAway(policy: Policy, capacity: nat, x: Bytes, y: Bytes, z: Bytes, w: Bytes)
    returns (neighbour: Option<Bytes>)
    requires |x| == |y| == |z| > 0 && |w| == 2 * |x|
    ensures neighbour == Some(w[|x|..])
  {
    var bs := |x|;
    hide Layout, Contiguous, RangeFree, ReadRecord;
    var s := ExtendBehind(policy, capacity, x, y, z);
    EnclosedTotal(bs);
    NeededIsData(bs, 2 * bs);
    EnclosedReads(bs, s.device, w);
    var gone := s.Remove(1);
    var n, at, count := s.Write(3, w);
    neighbour := s.Read(2);
  }
}
