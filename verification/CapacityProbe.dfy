/** Probing a device that may store less than it advertises, and how far off the estimate can be. */
module CapacityProbe {
  import opened ByteStrings
  import opened Division
  import opened Wrappers
  import opened Sorting

  datatype Report = Report(
    advertised: nat,
    probed: seq<nat>,
    failed: seq<nat>,
    highestVerified: nat,
    estimatedUsable: nat)

  /** A device that keeps data below its real capacity only. What is written past it is refused,
      fails on sync, or cannot be read back. */
  class BlockDevice {
    const capacity: nat
    const sectorSize: nat
    const readOnly: bool
    const holds: nat
    var cells: Bytes
    /** The last write passed the real capacity, and what it tried to store. */
    var lost: bool
    var last: Bytes

    constructor (capacity: nat, sectorSize: nat, readOnly: bool, cells: Bytes)
      ensures this.capacity == capacity && this.sectorSize == sectorSize && this.readOnly == readOnly
      ensures this.cells == cells && holds == |cells| && !lost
    {
      this.capacity, this.sectorSize, this.readOnly := capacity, sectorSize, readOnly;
      this.cells, holds, lost, last := cells, |cells|, false, [];
    }

    method WriteAt(offset: nat, data: Bytes) returns (ok: bool)
      requires |cells| == holds
      modifies this
      ensures |cells| == holds && lost == (offset + |data| > holds) && last == data
      ensures !lost ==> ok && cells == old(cells)[..offset] + data + old(cells)[offset + |data|..]
    {
      lost, last := offset + |data| > holds, data;
      if lost {
        ok := *;
      } else {
        cells := cells[..offset] + data + cells[offset + |data|..];
        ok := true;
      }
    }

    method Sync() returns (ok: bool)
      ensures !lost ==> ok
    {
      ok := *;
      ok := ok || !lost;
    }

    method ReadAt(offset: nat, length: nat) returns (r: Option<Bytes>)
      requires |cells| == holds
      ensures offset + length <= holds ==> r == Some(cells[offset..offset + length])
      ensures offset + length > holds ==> r != Some(last)
    {
      if offset + length <= holds { return Some(cells[offset..offset + length]); }
      var answers: bool := *;
      var other: Bytes := *;
      r := if answers && other != last then Some(other) else None;
    }
  }

  /** Chunks are whole sectors, at least one. */
  function ChunkBytes(chunkSize: nat, sectorSize: nat): (n: nat)
    requires sectorSize > 0
    ensures n > 0 && n >= chunkSize
  {
    var n := (chunkSize + sectorSize - 1) / sectorSize * sectorSize;
    DivisionBounds(chunkSize + sectorSize - 1, sectorSize);
    Max(n, sectorSize)
  }

  /** The `i`-th of `count` evenly spaced offsets, rounded down to a sector. */
  function ProbeOffset(maxOffset: nat, count: nat, sectorSize: nat, i: nat): nat
    requires count > 1 && sectorSize > 0
  {
    Floored(maxOffset * i / (count - 1), sectorSize)
  }

  function MaxOffset(capacity: nat, chunk: nat): nat { SatSub(capacity, chunk) }

  /** The offsets of a run: where a chunk is tried. */
  predicate IsProbe(capacity: nat, chunk: nat, count: nat, sectorSize: nat, offset: nat)
    requires count > 0 && sectorSize > 0
  {
    if count == 1 then offset == 0
    else exists i :: 0 <= i < count && ProbeOffset(MaxOffset(capacity, chunk), count, sectorSize, i) == offset
  }

  /** The report of a run in which exactly the chunks that pass the real capacity failed. */
  ghost predicate Truthful(device: BlockDevice, chunk: nat, count: nat, r: Report)
    requires count > 0 && device.sectorSize > 0
  {
    && r.advertised == device.capacity
    && Ascending(Smaller, r.probed)
    && (forall x :: x in r.probed <==> IsProbe(device.capacity, chunk, count, device.sectorSize, x))
    && (forall x :: x in r.failed <==> x in r.probed && x + chunk > device.holds)
    && Ascending(Smaller, r.failed)
    && (forall x :: x in r.probed && x + chunk <= device.holds ==> x + chunk <= r.highestVerified)
    && (r.highestVerified == 0
        || (chunk <= r.highestVerified <= device.holds && r.highestVerified - chunk in r.probed))
    && r.estimatedUsable == if r.failed == [] then device.capacity else r.highestVerified
  }

  lemma SmallerOrder()
    ensures StrictTotalOrder<nat>(Smaller)
  {
  }

  method VerifyDeviceCapacity(device: BlockDevice, chunkSize: nat, count: nat) returns (r: Result<Report>)
    requires |device.cells| == device.holds && device.sectorSize > 0
    modifies device
    ensures |device.cells| == device.holds
    ensures r.Err? <==> device.readOnly || count == 0
    ensures r.Err? ==> r.error == (if device.readOnly then PolicyViolation else InvalidInput)
    ensures r.Err? ==> unchanged(device)
    ensures r.Ok? ==> Truthful(device, ChunkBytes(chunkSize, device.sectorSize), count, r.value)
  {
    if device.readOnly { return Err(PolicyViolation); }
    var chunk := ChunkBytes(chunkSize, device.sectorSize);
    if count == 0 { return Err(InvalidInput); }
    var offsets := PlanProbes(device.capacity, chunk, count, device.sectorSize);
    var failed: seq<nat>, highest: nat := [], 0;
    for i := 0 to |offsets|
      invariant |device.cells| == device.holds
      invariant forall x :: x in failed <==> x in offsets[..i] && x + chunk > device.holds
      invariant Ascending(Smaller, failed)
      invariant forall x :: x in offsets[..i] && x + chunk <= device.holds ==> x + chunk <= highest
      invariant highest == 0 || (chunk <= highest <= device.holds && highest - chunk in offsets[..i])
    {
      var offset := offsets[i];
      assert offsets[..i + 1] == offsets[..i] + [offset];
      assert forall x :: x in offsets[..i] ==> x < offset;
      var ok := Probe(device, offset, chunk);
      if ok {
        highest := Max(highest, offset + chunk);
      } else {
        forall k | 0 <= k < |failed| ensures failed[k] < offset { assert failed[k] in failed; }
        failed := failed + [offset];
      }
    }
    assert offsets[..|offsets|] == offsets;
    var synced := device.Sync();
    r := Ok(Report(device.capacity, offsets, failed, highest, if failed == [] then device.capacity else highest));
  }

  /** The planned offsets, each once and in order. */
  method PlanProbes(capacity: nat, chunk: nat, count: nat, sectorSize: nat) returns (offsets: seq<nat>)
    requires count > 0 && sectorSize > 0
    ensures Ascending(Smaller, offsets)
    ensures forall x :: x in offsets <==> IsProbe(capacity, chunk, count, sectorSize, x)
  {
    if count == 1 { return [0]; }
    SmallerOrder();
    var maxOffset := MaxOffset(capacity, chunk);
    var raw: seq<nat> := seq(count, i requires 0 <= i < count => ProbeOffset(maxOffset, count, sectorSize, i));
    offsets := SortDedup<nat>(Smaller, raw);
    forall x ensures x in raw <==> IsProbe(capacity, chunk, count, sectorSize, x) {
      hide ProbeOffset;
      if i :| 0 <= i < count && ProbeOffset(maxOffset, count, sectorSize, i) == x { assert raw[i] == x; }
    }
  }

  /** Write a pattern, sync, and read it back. */
  method Probe(device: BlockDevice, offset: nat, chunk: nat) returns (ok: bool)
    requires |device.cells| == device.holds && chunk > 0
    modifies device
    ensures |device.cells| == device.holds
    ensures ok <==> offset + chunk <= device.holds
  {
    var pattern := TestPattern(offset, chunk);
    var written := device.WriteAt(offset, pattern);
    if !written { return false; }
    var synced := device.Sync();
    if !synced { return false; }
    var back := device.ReadAt(offset, chunk);
    if !device.lost { assert device.cells[offset..offset + chunk] == pattern; }
    ok := back == Some(pattern);
  }

  /** Some bytes that depend on the offset. */
  function TestPattern(offset: nat, length: nat): (p: Bytes)
    ensures |p| == length
  {
    var seed := offset * 0x9E37_79B9_7F4A_7C15 % 0x1_0000_0000_0000_0000;
    seq(length, i requires 0 <= i < length => PatternByte(seed, i))
  }

  function PatternByte(seed: nat, i: nat): byte {
    var mixed := (seed + i) * 0x100_0000_01B3 % 0x1_0000_0000_0000_0000;
    (mixed / Pow256(i % 8) % 256) as byte
  }

  function Pow256(n: nat): (p: nat)
    ensures p > 0
  {
    if n == 0 then 1 else 256 * Pow256(n - 1)
  }

  // ----- what the report is worth -----

  function Floored(x: nat, k: nat): nat
    requires k > 0
  {
    x / k * k
  }

  lemma FlooredOrder(x: nat, y: nat, k: nat)
    requires k > 0 && x <= y
    ensures Floored(x, k) <= Floored(y, k) < Floored(x, k) + (y - x) + k
  {
    DivisionBounds(x, k);
    DivisionBounds(y, k);
    SumDivided(x, y - x, k);
    Scaled(k, x / k, y / k);
  }

  /** Neighbouring probes are at most a step and a sector apart, and none goes back. */
  lemma ProbeGap(maxOffset: nat, count: nat, sectorSize: nat, i: nat)
    requires count > 1 && sectorSize > 0
    ensures var x, y := ProbeOffset(maxOffset, count, sectorSize, i), ProbeOffset(maxOffset, count, sectorSize, i + 1);
            x <= y <= x + maxOffset / (count - 1) + sectorSize
  {
    hide Floored;
    var k := count - 1;
    var x := maxOffset * i;
    assert maxOffset * (i + 1) == x + maxOffset;
    SumDivided(x, maxOffset, k);
    FlooredOrder(x / k, (x + maxOffset) / k, sectorSize);
  }

  lemma {:induction false} ProbesOrdered(maxOffset: nat, count: nat, sectorSize: nat, i: nat, j: nat)
    requires count > 1 && sectorSize > 0 && i <= j
    ensures ProbeOffset(maxOffset, count, sectorSize, i) <= ProbeOffset(maxOffset, count, sectorSize, j)
    decreases j - i
  {
    if i == j {
    } else {
      ProbesOrdered(maxOffset, count, sectorSize, i, j - 1);
      ProbeGap(maxOffset, count, sectorSize, j - 1);
    }
  }

  /** The first probe is at the start and the last as far out as alignment allows. */
  lemma ProbeEnds(maxOffset: nat, count: nat, sectorSize: nat)
    requires count > 1 && sectorSize > 0
    ensures ProbeOffset(maxOffset, count, sectorSize, 0) == 0
    ensures var last := ProbeOffset(maxOffset, count, sectorSize, count - 1); maxOffset - sectorSize < last <= maxOffset
  {
    var k := count - 1;
    assert maxOffset * k == k * maxOffset;
    QuotientIs(maxOffset * k, k, maxOffset);
    DivisionBounds(maxOffset, sectorSize);
    QuotientIs(0, k, 0);
    QuotientIs(0, sectorSize, 0);
  }

  /** Somewhere between a probe that fits and a later one that does not, there are two neighbours
      of which the first fits and the second does not. */
  lemma {:induction false} Edge(maxOffset: nat, count: nat, sectorSize: nat, chunk: nat, holds: nat, j: nat)
    returns (i: nat)
    requires count > 1 && sectorSize > 0 && j < count
    requires ProbeOffset(maxOffset, count, sectorSize, 0) + chunk <= holds
    requires ProbeOffset(maxOffset, count, sectorSize, j) + chunk > holds
    ensures i < j && ProbeOffset(maxOffset, count, sectorSize, i) + chunk <= holds
    ensures ProbeOffset(maxOffset, count, sectorSize, i + 1) + chunk > holds
  {
    hide ProbeOffset;
    if ProbeOffset(maxOffset, count, sectorSize, j - 1) + chunk <= holds { i := j - 1; } else {
      i := Edge(maxOffset, count, sectorSize, chunk, holds, j - 1);
    }
  }

  /** When some probes fail and some do not, the estimate is below the real capacity by less than a
      step and a sector. */
  lemma EstimateBound(device: BlockDevice, chunk: nat, count: nat, r: Report)
    requires count > 0 && device.sectorSize > 0 && chunk > 0 && Truthful(device, chunk, count, r)
    requires r.failed != [] && chunk <= device.holds
    ensures count > 1 && r.estimatedUsable <= device.holds
    ensures device.holds - r.estimatedUsable < MaxOffset(device.capacity, chunk) / (count - 1) + device.sectorSize
  {
    hide ProbeOffset;
    var maxOffset, s := MaxOffset(device.capacity, chunk), device.sectorSize;
    var bad := r.failed[0];
    assert bad in r.failed && bad in r.probed && IsProbe(device.capacity, chunk, count, s, bad);
    assert count > 1;
    var j :| 0 <= j < count && ProbeOffset(maxOffset, count, s, j) == bad;
    ProbeEnds(maxOffset, count, s);
    var i := Edge(maxOffset, count, s, chunk, device.holds, j);
    var good := ProbeOffset(maxOffset, count, s, i);
    assert IsProbe(device.capacity, chunk, count, s, good) && good in r.probed;
    ProbeGap(maxOffset, count, s, i);
  }

  /** A chunk that does not even fit at the start makes every probe fail and the estimate zero;
      otherwise the probe at the start succeeds. */
  lemma NothingUsable(device: BlockDevice, chunk: nat, count: nat, r: Report)
    requires count > 0 && device.sectorSize > 0 && chunk > 0 && Truthful(device, chunk, count, r)
    ensures r.highestVerified == 0 <==> chunk > device.holds
    ensures chunk > device.holds ==> r.estimatedUsable == 0 && forall x :: x in r.failed <==> x in r.probed
  {
    var s := device.sectorSize;
    if count > 1 { ProbeEnds(MaxOffset(device.capacity, chunk), count, s); }
    hide ProbeOffset;
    assert IsProbe(device.capacity, chunk, count, s, 0) && 0 in r.probed;
  }

  /** When two or more probes all succeed, the device is honest up to less than one sector; a
      single probe says nothing beyond its own chunk. */
  lemma AllVerified(device: BlockDevice, chunk: nat, count: nat, r: Report)
    requires count > 0 && device.sectorSize > 0 && chunk > 0 && Truthful(device, chunk, count, r)
    ensures count > 1 && r.failed == [] ==> device.capacity - device.holds < device.sectorSize
    ensures count == 1 ==> (r.failed == [] <==> chunk <= device.holds)
    ensures r.failed == [] ==> r.estimatedUsable == device.capacity
  {
    var maxOffset, s := MaxOffset(device.capacity, chunk), device.sectorSize;
    if count > 1 {
      ProbeEnds(maxOffset, count, s);
      hide ProbeOffset;
      var last := ProbeOffset(maxOffset, count, s, count - 1);
      assert IsProbe(device.capacity, chunk, count, s, last) && last in r.probed;
    } else {
      assert IsProbe(device.capacity, chunk, count, s, 0) && 0 in r.probed;
      if r.failed != [] { assert r.failed[0] in r.failed; }
    }
  }

  /** All probes are aligned. */
  lemma ProbesAligned(capacity: nat, chunk: nat, count: nat, sectorSize: nat, offset: nat)
    requires count > 0 && sectorSize > 0 && IsProbe(capacity, chunk, count, sectorSize, offset)
    ensures exists k: nat :: offset == k * sectorSize
    ensures offset <= MaxOffset(capacity, chunk)
  {
    if count == 1 {
      assert offset == 0 * sectorSize;
    } else {
      var maxOffset := MaxOffset(capacity, chunk);
      var i :| 0 <= i < count && ProbeOffset(maxOffset, count, sectorSize, i) == offset;
      assert offset == maxOffset * i / (count - 1) / sectorSize * sectorSize;
      hide ProbeOffset;
      ProbesOrdered(maxOffset, count, sectorSize, i, count - 1);
      ProbeEnds(maxOffset, count, sectorSize);
    }
  }
}
