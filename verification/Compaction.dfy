/** Moving the records of a block store together, as defragmentation and the reallocation of hot records
    do: one record after the other is copied to the end of those before it. */
module Compaction {
  import opened ByteStrings
  import opened Wrappers
  import opened BlockStorage

  datatype Disk = Disk(device: Device, records: Records)

  function MovedTo(r: Record, at: nat): Record {
    r.(extents := seq(|r.extents|, i requires 0 <= i < |r.extents| => r.extents[i].(block := at)))
  }

  /** How many blocks are copied; a reallocation copies one even for a record that has none. */
  function Copied(r: Record, least: nat): nat { Max(r.Total(), least) }

  /** Where the next record goes. */
  function Cursor(records: Records, order: seq<nat>): nat {
    if order == [] then 0
    else
      var last := order[|order| - 1];
      Cursor(records, order[..|order| - 1]) + if last in records then Max(records[last].Total(), 1) else 0
  }

  /** The record is not in place, and both ranges lie on a device of `n` blocks. */
  predicate Copies(n: nat, r: Record, to: nat, least: nat) {
    r.First() != to && r.First() + Copied(r, least) <= n && to + Copied(r, least) <= n
  }

  /** A record's turn: unless it is in place already, its range is copied, and all its extents are said
      to start there. */
  function CompactOne(bs: nat, d: Disk, id: nat, to: nat, least: nat): Disk {
    if id !in d.records || d.records[id].First() == to then d
    else
      var r := d.records[id];
      var device :=
        if Copies(|d.device|, r, to, least)
        then Stored(bs, d.device, to, d.device[r.First()..r.First() + Copied(r, least)]) else d.device;
      Disk(device, d.records[id := MovedTo(r, to)])
  }

  function CompactAll(bs: nat, d: Disk, order: seq<nat>, least: nat): Disk {
    if order == [] then d
    else
      var front := order[..|order| - 1];
      CompactOne(bs, CompactAll(bs, d, front, least), order[|order| - 1], Cursor(d.records, front), least)
  }

  // ----- when it keeps the contents -----

  /** Every record once. */
  ghost predicate Enumerates(records: Records, order: seq<nat>) {
    && (forall id :: id in records <==> id in order)
    && (forall i, j :: 0 <= i < j < |order| ==> order[i] != order[j])
  }

  ghost predicate OwnBlocks(records: Records) {
    forall p, q, b: nat :: p in records && q in records && p != q && Owns(records[p], b) ==> !Owns(records[q], b)
  }

  /** Two extents of a record are not at the same place. */
  ghost predicate StartsApart(records: Records) {
    forall id :: id in records && |records[id].extents| > 1 ==>
      records[id].extents[0].block != records[id].extents[1].block
  }

  /** The record is in place, has no bytes, or has them in one extent and room for it at its new place. */
  predicate Goes(n: nat, r: Record, to: nat) {
    r.First() == to || r.extents == [] || (|r.extents| == 1 && to + r.Total() <= n)
  }

  /** The i-th turn copies something over block `k`, which holds bytes of the j-th record; that one still
      waits for its turn, or will never be moved. */
  ghost predicate Disturbs(bs: nat, n: nat, records: Records, order: seq<nat>, least: nat, i: nat, j: nat, k: nat)
    requires bs > 0 && i < |order| && j < |order| && order[i] in records && order[j] in records
  {
    var r, s, to := records[order[i]], records[order[j]], Cursor(records, order[..i]);
    && i != j && (i < j || s.First() == Cursor(records, order[..j]))
    && Copies(n, r, to, least) && to <= k < to + Copied(r, least) && HoldsBytes(bs, s, k)
  }

  ghost predicate AllGo(n: nat, records: Records, order: seq<nat>)
    requires Enumerates(records, order)
  {
    forall i :: 0 <= i < |order| ==> Goes(n, records[order[i]], Cursor(records, order[..i]))
  }

  ghost predicate AllPass(bs: nat, n: nat, records: Records, order: seq<nat>, least: nat)
    requires bs > 0 && Enumerates(records, order)
  {
    forall i, j, k: nat :: 0 <= i < |order| && 0 <= j < |order| ==> !Disturbs(bs, n, records, order, least, i, j, k)
  }

  /** Every record that is moved has at most one extent and room at its new place, and none is copied over
      bytes of one that waits for its turn or stays where it is. */
  ghost predicate Undisturbed(bs: nat, n: nat, records: Records, order: seq<nat>, least: nat)
    requires bs > 0
  {
    Enumerates(records, order) && AllGo(n, records, order) && AllPass(bs, n, records, order, least)
  }

  /** All records can be read after the pass, with the content they had. */
  ghost predicate Preserves(bs: nat, device: Device, records: Records, order: seq<nat>, least: nat)
    requires bs > 0 && WellKept(bs, device, records)
  {
    var d := CompactAll(bs, Disk(device, records), order, least);
    WellKept(bs, d.device, d.records) && ContentsOf(bs, d.device, d.records) == ContentsOf(bs, device, records)
  }

  /** Whatever is on the device. */
  ghost predicate Safe(bs: nat, n: nat, records: Records, order: seq<nat>, least: nat)
    requires bs > 0
  {
    forall device: Device :: |device| == n && WellKept(bs, device, records) ==>
      Preserves(bs, device, records, order, least)
  }

  // ----- the pass, turn by turn -----

  lemma {:induction false} CursorGrows(records: Records, order: seq<nat>, i: nat, j: nat)
    requires i <= j <= |order|
    ensures Cursor(records, order[..i]) <= Cursor(records, order[..j])
    ensures i < j && order[i] in records ==>
              Cursor(records, order[..i]) + Max(records[order[i]].Total(), 1) <= Cursor(records, order[..j])
  {
    if i == j {
    } else {
      assert order[..j][..j - 1] == order[..j - 1];
      CursorGrows(records, order, i, j - 1);
    }
  }

  lemma NextTurn(bs: nat, d: Disk, order: seq<nat>, least: nat, i: nat)
    requires i < |order|
    ensures CompactAll(bs, d, order[..i + 1], least)
      == CompactOne(bs, CompactAll(bs, d, order[..i], least), order[i], Cursor(d.records, order[..i]), least)
  {
    assert order[..i + 1][..i] == order[..i];
  }

  /** Where a record is after the first turns. */
  function PlaceAfter(records: Records, order: seq<nat>, i: nat, j: nat): Record
    requires i <= |order| && j < |order| && order[j] in records
  {
    var r := records[order[j]];
    if j < i && r.First() != Cursor(records, order[..j]) then MovedTo(r, Cursor(records, order[..j])) else r
  }

  ghost predicate AllPlaced(records: Records, order: seq<nat>, i: nat, moved: Records)
    requires Enumerates(records, order) && i <= |order|
  {
    && moved.Keys == records.Keys
    && forall j :: 0 <= j < |order| ==> moved[order[j]] == PlaceAfter(records, order, i, j)
  }

  lemma {:induction false} RecordsAfter(bs: nat, d: Disk, order: seq<nat>, least: nat, i: nat)
    requires Enumerates(d.records, order) && i <= |order|
    ensures AllPlaced(d.records, order, i, CompactAll(bs, d, order[..i], least).records)
  {
    if i == 0 {
    } else {
      var e := CompactAll(bs, d, order[..i - 1], least);
      RecordsAfter(bs, d, order, least, i - 1);
      NextTurn(bs, d, order, least, i - 1);
      PlacedNext(d.records, order, i - 1, e.records);
      TurnRecords(bs, e, order[i - 1], Cursor(d.records, order[..i - 1]), least);
      hide AllPlaced, CompactOne, CompactAll, Cursor, MovedTo;
    }
  }

  lemma PlacedNext(records: Records, order: seq<nat>, i: nat, moved: Records)
    requires Enumerates(records, order) && i < |order| && AllPlaced(records, order, i, moved)
    ensures order[i] in moved && moved[order[i]] == records[order[i]]
    ensures var to := Cursor(records, order[..i]);
            AllPlaced(records, order, i + 1,
                      if records[order[i]].First() == to then moved
                      else moved[order[i] := MovedTo(records[order[i]], to)])
  {
    hide Cursor, MovedTo;
    assert moved[order[i]] == PlaceAfter(records, order, i, i);
    assert forall j :: 0 <= j < |order| && j != i ==>
        order[j] != order[i] && PlaceAfter(records, order, i + 1, j) == PlaceAfter(records, order, i, j);
  }

  lemma TurnRecords(bs: nat, d: Disk, id: nat, to: nat, least: nat)
    requires id in d.records
    ensures CompactOne(bs, d, id, to, least).records
         == if d.records[id].First() == to then d.records else d.records[id := MovedTo(d.records[id], to)]
  {
    hide Copies, Stored;
  }

  /** A record is untouched before its turn. */
  lemma Turn(bs: nat, d: Disk, order: seq<nat>, least: nat, e: Disk, i: nat)
    requires Enumerates(d.records, order) && i < |order| && e == CompactAll(bs, d, order[..i], least)
    ensures order[i] in e.records && e.records[order[i]] == d.records[order[i]]
    ensures CompactAll(bs, d, order[..i + 1], least)
         == CompactOne(bs, e, order[i], Cursor(d.records, order[..i]), least)
    ensures Cursor(d.records, order[..i + 1])
         == Cursor(d.records, order[..i]) + Max(d.records[order[i]].Total(), 1)
  {
    RecordsAfter(bs, d, order, least, i);
    NextTurn(bs, d, order, least, i);
    PlacedNext(d.records, order, i, e.records);
    assert order[..i + 1][..i] == order[..i];
    hide CompactAll, CompactOne, AllPlaced;
  }

  lemma NoTurn(bs: nat, d: Disk, order: seq<nat>, least: nat)
    ensures CompactAll(bs, d, order[..0], least) == d && Cursor(d.records, order[..0]) == 0
  {
  }

  /** What a turn leaves on the device. */
  lemma TurnAt(bs: nat, d: Disk, id: nat, to: nat, least: nat)
    requires id in d.records
    ensures var r, e := d.records[id], CompactOne(bs, d, id, to, least).device;
            && |e| == |d.device|
            && (Copies(|e|, r, to, least) ==>
                  forall k :: to <= k < to + Copied(r, least) ==> e[k] == d.device[r.First() + (k - to)])
            && forall k :: 0 <= k < |e| && !(Copies(|e|, r, to, least) && to <= k < to + Copied(r, least)) ==>
                 e[k] == d.device[k]
  {
    var r := d.records[id];
    if Copies(|d.device|, r, to, least) {
      StoredAt(bs, d.device, to, d.device[r.First()..r.First() + Copied(r, least)]);
    }
  }

  lemma TurnRows(bs: nat, d: Disk, id: nat, to: nat, least: nat)
    requires id in d.records && Rows(bs, d.device)
    ensures Rows(bs, CompactOne(bs, d, id, to, least).device)
  {
    var r := d.records[id];
    hide Stored;
    if Copies(|d.device|, r, to, least) {
      StoredRows(bs, d.device, to, d.device[r.First()..r.First() + Copied(r, least)]);
    }
  }

  lemma {:induction false} ReadShifted(bs: nat, a: Device, from: nat, b: Device, to: nat, len: nat)
    requires bs > 0 && Rows(bs, a) && Rows(bs, b)
    requires from + DataBlocks(bs, len) <= |a| && to + DataBlocks(bs, len) <= |b|
    requires a[from..from + DataBlocks(bs, len)] == b[to..to + DataBlocks(bs, len)]
    ensures ReadBlocks(bs, a, from, len) == ReadBlocks(bs, b, to, len)
    decreases len
  {
    var n := DataBlocks(bs, len);
    if n > 0 {
      assert a[from..from + n][0] == a[from] && b[to..to + n][0] == b[to];
      if len > bs {
        assert a[from..from + n][1..] == a[from + 1..from + n] && b[to..to + n][1..] == b[to + 1..to + n];
        ReadShifted(bs, a, from + 1, b, to + 1, len - bs);
      }
    }
  }

  lemma OneTotal(e: Extent)
    ensures TotalBlocks([e]) == e.blocks && TotalBytes([e]) == e.len
  {
    assert [e][..0] == [];
    assert TotalBlocks([]) == 0;
  }

  lemma SliceSame(a: Device, from: nat, b: Device, to: nat, count: nat)
    requires from + count <= |a| && to + count <= |b|
    requires forall k :: to <= k < to + count ==> b[k] == a[from + (k - to)]
    ensures a[from..from + count] == b[to..to + count]
  {
    var x, y := a[from..from + count], b[to..to + count];
    forall t | 0 <= t < count ensures x[t] == y[t] { assert b[to + t] == a[from + t]; }
  }

  lemma MovedReads(bs: nat, a: Device, b: Device, r: Record, to: nat)
    requires bs > 0 && Rows(bs, a) && Rows(bs, b) && WellRecord(bs, a, r) && |r.extents| == 1
    requires r.First() + r.Total() <= |a| && to + r.Total() <= |b|
    requires forall k :: to <= k < to + r.Total() ==> b[k] == a[r.First() + (k - to)]
    ensures WellRecord(bs, b, MovedTo(r, to)) && ReadRecord(bs, b, MovedTo(r, to)) == ReadRecord(bs, a, r)
  {
    var e := r.extents[0];
    var m := e.(block := to);
    assert r.extents == [e] && MovedTo(r, to).extents == [m];
    assert FitsOn(bs, a, e);
    OneTotal(e);
    OneTotal(m);
    assert FitsOn(bs, b, m);
    SliceSame(a, e.block, b, to, DataBlocks(bs, e.len));
    ReadShifted(bs, a, e.block, b, to, e.len);
    OneExtent(bs, a, e);
    OneExtent(bs, b, m);
    RecordIsExtents(bs, a, r);
    RecordIsExtents(bs, b, MovedTo(r, to));
  }

  /** A record that is not in one extent lies on the device with all its blocks, or has none. */
  lemma SourceFits(bs: nat, device: Device, r: Record)
    requires bs > 0 && WellRecord(bs, device, r) && |r.extents| <= 1
    ensures r.extents == [] ==> r.First() == 0 == r.Total()
    ensures r.extents != [] ==> r.Total() >= 1 && r.First() + r.Total() <= |device|
    ensures forall b: nat :: Owns(r, b) <==> r.First() <= b < r.First() + r.Total()
  {
    if r.extents == [] {
      assert TotalBlocks([]) == 0;
    } else {
      var e := r.extents[0];
      assert r.extents == [e] && FitsOn(bs, device, e);
      OneTotal(e);
      forall b: nat ensures Owns(r, b) <==> r.First() <= b < r.First() + r.Total() {
        if r.First() <= b < r.First() + r.Total() { assert r.extents[0].block <= b < r.extents[0].End(); }
      }
    }
  }

  /** The record can be read, and has the bytes. */
  ghost predicate Holds(bs: nat, device: Device, r: Record, bytes: Bytes)
    requires bs > 0
  {
    Rows(bs, device) && WellRecord(bs, device, r) && ReadRecord(bs, device, r) == bytes
  }

  lemma AllHold(bs: nat, d: Disk, e: Disk)
    requires bs > 0 && WellKept(bs, d.device, d.records) && Rows(bs, e.device) && e.records.Keys == d.records.Keys
    requires forall q :: q in d.records ==> Holds(bs, e.device, e.records[q], ReadRecord(bs, d.device, d.records[q]))
    ensures WellKept(bs, e.device, e.records)
    ensures ContentsOf(bs, e.device, e.records) == ContentsOf(bs, d.device, d.records)
  {
    hide WellRecord, ReadRecord;
    assert forall q :: q in e.records ==> q in d.records;
  }

  /** A turn keeps all contents when the record can go and nothing is copied over bytes of others. */
  lemma TurnKeeps(bs: nat, d: Disk, id: nat, to: nat, least: nat)
    requires bs > 0 && least <= 1 && WellKept(bs, d.device, d.records) && id in d.records
    requires Goes(|d.device|, d.records[id], to)
    requires Copies(|d.device|, d.records[id], to, least) ==>
               RangeFree(bs, d.records, id, to, Copied(d.records[id], least))
    ensures var e := CompactOne(bs, d, id, to, least);
            && |e.device| == |d.device| && WellKept(bs, e.device, e.records)
            && ContentsOf(bs, e.device, e.records) == ContentsOf(bs, d.device, d.records)
  {
    var r, e := d.records[id], CompactOne(bs, d, id, to, least);
    TurnAt(bs, d, id, to, least);
    if r.First() != to {
      TurnRows(bs, d, id, to, least);
      assert e.records == d.records[id := MovedTo(r, to)];
      hide CompactOne, MovedTo, Copies, Copied, WellKept, RangeFree, Holds, ContentsOf, Goes;
      forall q | q in d.records ensures Holds(bs, e.device, e.records[q], ReadRecord(bs, d.device, d.records[q])) {
        if q == id { OwnTurn(bs, d, id, to, least); } else { OtherTurn(bs, d, id, to, least, q); }
      }
      AllHold(bs, d, e);
    }
  }

  lemma OtherTurn(bs: nat, d: Disk, id: nat, to: nat, least: nat, q: nat)
    requires bs > 0 && WellKept(bs, d.device, d.records) && id in d.records && q in d.records && q != id
    requires Rows(bs, CompactOne(bs, d, id, to, least).device)
    requires Copies(|d.device|, d.records[id], to, least) ==>
               RangeFree(bs, d.records, id, to, Copied(d.records[id], least))
    ensures Holds(bs, CompactOne(bs, d, id, to, least).device, d.records[q], ReadRecord(bs, d.device, d.records[q]))
  {
    var e := CompactOne(bs, d, id, to, least);
    TurnAt(bs, d, id, to, least);
    hide CompactOne, MovedTo, Copies, WellRecord, HoldsBytes, ReadRecord;
    SameLengthFits(bs, d.device, e.device, d.records[q]);
    RecordDepends(bs, d.device, e.device, d.records[q]);
  }

  lemma OwnTurn(bs: nat, d: Disk, id: nat, to: nat, least: nat)
    requires bs > 0 && least <= 1 && WellKept(bs, d.device, d.records)
    requires id in d.records && d.records[id].First() != to
    requires Goes(|d.device|, d.records[id], to) && Rows(bs, CompactOne(bs, d, id, to, least).device)
    ensures Holds(bs, CompactOne(bs, d, id, to, least).device, MovedTo(d.records[id], to),
                  ReadRecord(bs, d.device, d.records[id]))
  {
    var r := d.records[id];
    assert WellRecord(bs, d.device, r);
    SourceFits(bs, d.device, r);
    if r.extents == [] {
      assert MovedTo(r, to) == r;
      assert ReadExtents(bs, d.device, []) == [];
    } else {
      TurnAt(bs, d, id, to, least);
      var e := CompactOne(bs, d, id, to, least);
      hide CompactOne, MovedTo, WellRecord, ReadRecord;
      MovedReads(bs, d.device, e.device, r, to);
    }
  }

  // ----- enough -----

  /** When its turn comes, a record is copied over no bytes of another. */
  lemma TurnClear(bs: nat, device: Device, records: Records, order: seq<nat>, least: nat, e: Records, i: nat)
    requires bs > 0 && WellKept(bs, device, records) && Enumerates(records, order) && i < |order|
    requires AllGo(|device|, records, order) && AllPass(bs, |device|, records, order, least)
    requires AllPlaced(records, order, i, e)
    requires Copies(|device|, records[order[i]], Cursor(records, order[..i]), least)
    ensures RangeFree(bs, e, order[i], Cursor(records, order[..i]), Copied(records[order[i]], least))
  {
    hide Copies, Cursor, WellKept, AllGo, AllPass, PlaceAfter, HoldsBytes, Copied;
    forall q, k | q in e && q != order[i]
                  && Cursor(records, order[..i]) <= k < Cursor(records, order[..i]) + Copied(records[order[i]], least)
      ensures !HoldsBytes(bs, e[q], k)
    {
      var j :| 0 <= j < |order| && order[j] == q;
      ClearOf(bs, device, records, order, least, i, j, k);
    }
  }

  lemma ClearOf(bs: nat, device: Device, records: Records, order: seq<nat>, least: nat, i: nat, j: nat, k: nat)
    requires bs > 0 && WellKept(bs, device, records) && Enumerates(records, order)
    requires i < |order| && j < |order| && i != j
    requires AllGo(|device|, records, order) && AllPass(bs, |device|, records, order, least)
    requires Copies(|device|, records[order[i]], Cursor(records, order[..i]), least)
    requires Cursor(records, order[..i]) <= k < Cursor(records, order[..i]) + Copied(records[order[i]], least)
    ensures !HoldsBytes(bs, PlaceAfter(records, order, i, j), k)
  {
    hide Copies, Cursor, WellKept, AllGo, HoldsBytes, Copied, MovedTo;
    assert !Disturbs(bs, |device|, records, order, least, i, j, k);
    if HoldsBytes(bs, PlaceAfter(records, order, i, j), k) {
      assert j < i && records[order[j]].First() != Cursor(records, order[..j]);
      MovedIsBefore(bs, device, records, order, i, j, k);
    }
  }

  lemma MovedIsBefore(bs: nat, device: Device, records: Records, order: seq<nat>, i: nat, j: nat, k: nat)
    requires bs > 0 && WellKept(bs, device, records) && Enumerates(records, order) && j < i < |order|
    requires AllGo(|device|, records, order) && records[order[j]].First() != Cursor(records, order[..j])
    requires HoldsBytes(bs, PlaceAfter(records, order, i, j), k)
    ensures k < Cursor(records, order[..i])
  {
    var s, at := records[order[j]], Cursor(records, order[..j]);
    CursorGrows(records, order, j, i);
    assert WellRecord(bs, device, s) && Goes(|device|, s, at);
    hide Cursor, WellKept, AllGo, Enumerates, WellRecord, HoldsBytes, Goes, MovedTo;
    MovedHolds(bs, device, s, at, k);
  }

  lemma MovedHolds(bs: nat, device: Device, r: Record, at: nat, k: nat)
    requires bs > 0 && WellRecord(bs, device, r) && Goes(|device|, r, at) && r.First() != at
    requires HoldsBytes(bs, MovedTo(r, at), k)
    ensures k < at + r.Total()
  {
    assert |r.extents| == 1;
    var e := r.extents[0];
    assert r.extents == [e] && FitsOn(bs, device, e);
    OneTotal(e);
  }

  lemma TurnOfRun(bs: nat, device: Device, records: Records, order: seq<nat>, least: nat, d: Disk, i: nat)
    requires bs > 0 && least <= 1 && WellKept(bs, device, records) && Enumerates(records, order) && i < |order|
    requires AllGo(|device|, records, order) && AllPass(bs, |device|, records, order, least)
    requires |d.device| == |device| && WellKept(bs, d.device, d.records) && AllPlaced(records, order, i, d.records)
    ensures var e := CompactOne(bs, d, order[i], Cursor(records, order[..i]), least);
            && |e.device| == |device| && WellKept(bs, e.device, e.records)
            && ContentsOf(bs, e.device, e.records) == ContentsOf(bs, d.device, d.records)
  {
    var id, to := order[i], Cursor(records, order[..i]);
    assert PlaceAfter(records, order, i, i) == records[id] == d.records[id];
    assert Goes(|device|, records[id], to);
    hide CompactOne, Copies, Cursor, WellKept, AllPass, AllGo, RangeFree, Goes, PlaceAfter, Copied, ContentsOf;
    if Copies(|device|, records[id], to, least) {
      TurnClear(bs, device, records, order, least, d.records, i);
    }
    TurnKeeps(bs, d, id, to, least);
  }

  lemma {:induction false} RunKeeps(bs: nat, device: Device, records: Records, order: seq<nat>, least: nat, i: nat)
    requires bs > 0 && least <= 1 && WellKept(bs, device, records) && Enumerates(records, order) && i <= |order|
    requires AllGo(|device|, records, order) && AllPass(bs, |device|, records, order, least)
    ensures var d := CompactAll(bs, Disk(device, records), order[..i], least);
            && |d.device| == |device| && WellKept(bs, d.device, d.records)
            && ContentsOf(bs, d.device, d.records) == ContentsOf(bs, device, records)
  {
    hide CompactAll, CompactOne, Copies, Cursor, WellKept, AllPass, AllGo, AllPlaced, Copied, ContentsOf, Enumerates;
    var start := Disk(device, records);
    if i == 0 {
      NoTurn(bs, start, order, least);
    } else {
      var d := CompactAll(bs, start, order[..i - 1], least);
      RunKeeps(bs, device, records, order, least, i - 1);
      RecordsAfter(bs, start, order, least, i - 1);
      NextTurn(bs, start, order, least, i - 1);
      TurnOfRun(bs, device, records, order, least, d, i - 1);
    }
  }

  // ----- and needed -----

  /** Zeros everywhere, but for ones in block `k`. */
  function Lit(bs: nat, n: nat, k: nat): Device { seq(n, b => if b == k then seq(bs, _ => 1) else Zeros(bs)) }

  /** Zeros everywhere, but perhaps in block `k`. */
  ghost predicate Dark(bs: nat, device: Device, k: nat) {
    forall b :: 0 <= b < |device| && b != k ==> device[b] == Zeros(bs)
  }

  lemma LitKept(bs: nat, device: Device, records: Records, k: nat)
    requires bs > 0 && WellKept(bs, device, records)
    ensures WellKept(bs, Lit(bs, |device|, k), records) && Dark(bs, Lit(bs, |device|, k), k)
    ensures |Lit(bs, |device|, k)| == |device|
  {
    var lit := Lit(bs, |device|, k);
    forall b | 0 <= b < |lit| ensures |lit[b]| == bs { assert lit[b] == if b == k then seq(bs, _ => 1) else Zeros(bs); }
    hide WellRecord;
    forall id | id in records ensures WellRecord(bs, lit, records[id]) {
      SameLengthFits(bs, device, lit, records[id]);
    }
  }

  lemma {:induction false} DarkBlocks(bs: nat, device: Device, block: nat, len: nat)
    requires bs > 0 && Rows(bs, device) && block + DataBlocks(bs, len) <= |device| && Dark(bs, device, |device|)
    ensures ReadBlocks(bs, device, block, len) == Zeros(len)
    decreases len
  {
    if len <= bs {
      if len > 0 { assert device[block] == Zeros(bs); }
    } else {
      assert device[block] == Zeros(bs);
      DarkBlocks(bs, device, block + 1, len - bs);
    }
  }

  lemma {:induction false} DarkExtents(bs: nat, device: Device, extents: seq<Extent>)
    requires bs > 0 && Rows(bs, device) && AllFit(bs, device, extents) && Dark(bs, device, |device|)
    ensures ReadExtents(bs, device, extents) == Zeros(TotalBytes(extents))
  {
    if extents == [] {
    } else {
      var last := extents[|extents| - 1];
      assert FitsOn(bs, device, last);
      DarkExtents(bs, device, extents[..|extents| - 1]);
      DarkBlocks(bs, device, last.block, last.len);
    }
  }

  lemma DarkRecord(bs: nat, device: Device, r: Record)
    requires bs > 0 && Rows(bs, device) && WellRecord(bs, device, r) && Dark(bs, device, |device|)
    ensures ReadRecord(bs, device, r) == Zeros(r.size)
  {
    RecordIsExtents(bs, device, r);
    DarkExtents(bs, device, r.extents);
  }

  /** The first byte of an extent, in what is read of all. */
  lemma {:induction false} ExtentStarts(bs: nat, device: Device, extents: seq<Extent>, i: nat)
    requires bs > 0 && Rows(bs, device) && AllFit(bs, device, extents) && i < |extents|
    ensures TotalBytes(extents[..i]) < |ReadExtents(bs, device, extents)|
    ensures FitsOn(bs, device, extents[i])
         && ReadExtents(bs, device, extents)[TotalBytes(extents[..i])] == device[extents[i].block][0]
  {
    var front, last := extents[..|extents| - 1], extents[|extents| - 1];
    assert FitsOn(bs, device, last);
    ExtentsLength(bs, device, front);
    ReadLength(bs, device, last.block, last.len);
    if i == |extents| - 1 {
    } else {
      assert front[..i] == extents[..i] && front[i] == extents[i];
      ExtentStarts(bs, device, front, i);
    }
  }

  lemma TwoStarts(bs: nat, device: Device, r: Record)
    requires bs > 0 && Rows(bs, device) && WellRecord(bs, device, r) && |r.extents| > 1
    ensures FitsOn(bs, device, r.extents[0]) && FitsOn(bs, device, r.extents[1])
    ensures r.extents[0].len < |ReadRecord(bs, device, r)|
    ensures ReadRecord(bs, device, r)[0] == device[r.extents[0].block][0]
    ensures ReadRecord(bs, device, r)[r.extents[0].len] == device[r.extents[1].block][0]
  {
    RecordIsExtents(bs, device, r);
    ExtentStarts(bs, device, r.extents, 0);
    ExtentStarts(bs, device, r.extents, 1);
    OneTotal(r.extents[0]);
    assert r.extents[..0] == [] && r.extents[..1] == [r.extents[0]] && TotalBytes([]) == 0;
  }

  lemma {:induction false} RunLength(bs: nat, d: Disk, order: seq<nat>, least: nat, i: nat)
    requires i <= |order|
    ensures |CompactAll(bs, d, order[..i], least).device| == |d.device|
  {
    if i == 0 {
    } else {
      RunLength(bs, d, order, least, i - 1);
      NextTurn(bs, d, order, least, i - 1);
      var e, id := CompactAll(bs, d, order[..i - 1], least), order[i - 1];
      if id in e.records { TurnAt(bs, e, id, Cursor(d.records, order[..i - 1]), least); }
    }
  }

  /** A record of several extents that is moved reads the same bytes for two of them. */
  lemma SplitSpoils(bs: nat, device: Device, records: Records, order: seq<nat>, least: nat, i: nat)
    requires bs > 0 && WellKept(bs, device, records) && Enumerates(records, order) && StartsApart(records)
    requires i < |order| && |records[order[i]].extents| > 1
    requires records[order[i]].First() != Cursor(records, order[..i])
    ensures !Safe(bs, |device|, records, order, least)
  {
    var id, to := order[i], Cursor(records, order[..i]);
    var r := records[id];
    assert WellRecord(bs, device, r);
    var k := r.extents[1].block;
    var lit := Lit(bs, |device|, k);
    LitKept(bs, device, records, k);
    assert FitsOn(bs, device, r.extents[0]) && FitsOn(bs, device, r.extents[1]);
    var d := CompactAll(bs, Disk(lit, records), order, least);
    RecordsAfter(bs, Disk(lit, records), order, least, |order|);
    assert order[..|order|] == order;
    assert d.records[id] == PlaceAfter(records, order, |order|, i) == MovedTo(r, to);
    TwoStarts(bs, lit, r);
    if Preserves(bs, lit, records, order, least) {
      assert ContentsOf(bs, d.device, d.records)[id] == ContentsOf(bs, lit, records)[id];
      TwoStarts(bs, d.device, MovedTo(r, to));
      assert false;
    }
  }

  /** A record of one extent whose new place is not on the device is lost. */
  lemma OutsideSpoils(bs: nat, device: Device, records: Records, order: seq<nat>, least: nat, i: nat)
    requires bs > 0 && WellKept(bs, device, records) && Enumerates(records, order)
    requires i < |order| && |records[order[i]].extents| == 1
    requires !Goes(|device|, records[order[i]], Cursor(records, order[..i]))
    ensures !Preserves(bs, device, records, order, least)
  {
    var id, to := order[i], Cursor(records, order[..i]);
    var r := records[id];
    var d := CompactAll(bs, Disk(device, records), order, least);
    assert r.extents == [r.extents[0]];
    OneTotal(r.extents[0]);
    assert !(r.First() == to) && to + r.extents[0].blocks > |device|;
    assert MovedTo(r, to).extents[0] == r.extents[0].(block := to);
    hide CompactAll, Cursor, MovedTo, DataBlocks, Goes;
    RecordsAfter(bs, Disk(device, records), order, least, |order|);
    RunLength(bs, Disk(device, records), order, least, |order|);
    assert order[..|order|] == order;
    assert d.records[id] == PlaceAfter(records, order, |order|, i) == MovedTo(r, to);
    assert !FitsOn(bs, d.device, MovedTo(r, to).extents[0]);
    hide PlaceAfter, ReadRecord;
  }

  lemma TurnDark(bs: nat, d: Disk, id: nat, to: nat, least: nat, k: nat)
    requires id in d.records && Dark(bs, d.device, k)
    requires Copies(|d.device|, d.records[id], to, least) ==>
               !(d.records[id].First() <= k < d.records[id].First() + Copied(d.records[id], least))
    ensures var e := CompactOne(bs, d, id, to, least).device;
            && |e| == |d.device| && Dark(bs, e, k)
            && (Copies(|e|, d.records[id], to, least) && to <= k < to + Copied(d.records[id], least) ==>
                  Dark(bs, e, |e|))
  {
    TurnAt(bs, d, id, to, least);
    hide CompactOne, Copied;
  }

  /** What is copied before or in the turn that disturbs is not what is disturbed. */
  lemma SourceMisses(bs: nat, device: Device, records: Records, order: seq<nat>, least: nat,
                     i: nat, j: nat, k: nat, m: nat)
    requires bs > 0 && least <= 1 && WellKept(bs, device, records) && Enumerates(records, order) && OwnBlocks(records)
    requires AllGo(|device|, records, order) && m <= i < |order| && j < |order|
    requires Disturbs(bs, |device|, records, order, least, i, j, k)
    requires Copies(|device|, records[order[m]], Cursor(records, order[..m]), least)
    ensures !(records[order[m]].First() <= k < records[order[m]].First() + Copied(records[order[m]], least))
  {
    var r := records[order[m]];
    CursorGrows(records, order, 0, i);
    assert Goes(|device|, r, Cursor(records, order[..m]));
    assert m != j && order[m] != order[j];
    HoldingIsOwning(bs, device, records[order[j]], k);
    assert !Owns(r, k);
    assert WellRecord(bs, device, r);
    SourceFits(bs, device, r);
    assert order[..0] == [] && Cursor(records, []) == 0;
    hide Owns, HoldsBytes, WellKept;
  }

  /** Before the turn that disturbs, nothing but the disturbed block is lit. */
  lemma {:induction false} StillDark(bs: nat, device: Device, records: Records, order: seq<nat>, least: nat,
                                     i: nat, j: nat, k: nat, m: nat)
    requires bs > 0 && least <= 1 && WellKept(bs, device, records) && Enumerates(records, order) && OwnBlocks(records)
    requires AllGo(|device|, records, order) && m <= i < |order| && j < |order|
    requires Disturbs(bs, |device|, records, order, least, i, j, k)
    ensures var e := CompactAll(bs, Disk(Lit(bs, |device|, k), records), order[..m], least).device;
            |e| == |device| && Dark(bs, e, k)
  {
    hide CompactAll, Cursor, Copies, Copied, WellKept, AllGo, OwnBlocks, Enumerates, Disturbs, Lit, Dark;
    LitKept(bs, device, records, k);
    NoTurn(bs, Disk(Lit(bs, |device|, k), records), order, least);
    if m > 0 {
      StillDark(bs, device, records, order, least, i, j, k, m - 1);
      OneDark(bs, device, records, order, least, i, j, k, m - 1);
    }
  }

  /** One turn up to the one that disturbs, which leaves nothing lit. */
  lemma OneDark(bs: nat, device: Device, records: Records, order: seq<nat>, least: nat, i: nat, j: nat, k: nat, m: nat)
    requires bs > 0 && least <= 1 && WellKept(bs, device, records) && Enumerates(records, order) && OwnBlocks(records)
    requires AllGo(|device|, records, order) && m <= i < |order| && j < |order|
    requires Disturbs(bs, |device|, records, order, least, i, j, k)
    requires var e := CompactAll(bs, Disk(Lit(bs, |device|, k), records), order[..m], least).device;
             |e| == |device| && Dark(bs, e, k)
    ensures var e := CompactAll(bs, Disk(Lit(bs, |device|, k), records), order[..m + 1], least).device;
            |e| == |device| && Dark(bs, e, k) && (m == i ==> Dark(bs, e, |e|))
  {
    var start := Disk(Lit(bs, |device|, k), records);
    var e := CompactAll(bs, start, order[..m], least);
    RecordsAfter(bs, start, order, least, m);
    NextTurn(bs, start, order, least, m);
    assert e.records[order[m]] == PlaceAfter(records, order, m, m) == records[order[m]];
    hide CompactAll, CompactOne, Cursor, Copies, Copied, WellKept, AllGo, HoldsBytes, OwnBlocks, PlaceAfter, Dark;
    if Copies(|device|, records[order[m]], Cursor(records, order[..m]), least) {
      SourceMisses(bs, device, records, order, least, i, j, k, m);
    }
    TurnDark(bs, e, order[m], Cursor(records, order[..m]), least, k);
  }

  /** A dark device stays dark. */
  lemma {:induction false} DarkOn(bs: nat, d: Disk, order: seq<nat>, least: nat, i: nat, m: nat)
    requires i <= m <= |order| && Enumerates(d.records, order)
    requires var e := CompactAll(bs, d, order[..i], least).device; Dark(bs, e, |e|)
    ensures var e := CompactAll(bs, d, order[..m], least).device; Dark(bs, e, |e|)
  {
    hide CompactAll, CompactOne, Cursor, Copied, Copies, Enumerates, Dark;
    if i < m {
      DarkOn(bs, d, order, least, i, m - 1);
      var e := CompactAll(bs, d, order[..m - 1], least);
      Turn(bs, d, order, least, e, m - 1);
      DarkTurn(bs, e, order[m - 1], Cursor(d.records, order[..m - 1]), least);
    }
  }

  lemma DarkTurn(bs: nat, d: Disk, id: nat, to: nat, least: nat)
    requires id in d.records && Dark(bs, d.device, |d.device|)
    ensures var e := CompactOne(bs, d, id, to, least).device; Dark(bs, e, |e|)
  {
    TurnDark(bs, d, id, to, least, |d.device|);
  }

  /** Where a turn disturbs a record, a device with ones in the disturbed block alone shows it. */
  lemma DisturbedSpoils(bs: nat, device: Device, records: Records, order: seq<nat>, least: nat, i: nat, j: nat, k: nat)
    requires bs > 0 && least <= 1 && WellKept(bs, device, records) && Enumerates(records, order) && OwnBlocks(records)
    requires AllGo(|device|, records, order) && i < |order| && j < |order|
    requires Disturbs(bs, |device|, records, order, least, i, j, k)
    ensures !Safe(bs, |device|, records, order, least)
  {
    var lit, none := Lit(bs, |device|, k), Lit(bs, |device|, |device|);
    var d := CompactAll(bs, Disk(lit, records), order, least);
    StillDark(bs, device, records, order, least, i, j, k, i);
    OneDark(bs, device, records, order, least, i, j, k, i);
    DarkOn(bs, Disk(lit, records), order, least, i + 1, |order|);
    RecordsAfter(bs, Disk(lit, records), order, least, |order|);
    assert order[..|order|] == order;
    LitKept(bs, device, records, k);
    LitKept(bs, device, records, |device|);
    var r := records[order[j]];
    HeldOnDevice(bs, device, r, k);
    assert d.records[order[j]] == PlaceAfter(records, order, |order|, j);
    assert d.records[order[j]].size == r.size;
    assert lit[k][0] == 1 && none[k][0] == 0;
    hide CompactAll, Cursor, PlaceAfter, HoldsBytes, WellRecord, Dark, Lit, AllGo, Disturbs;
    RecordShows(bs, none, lit, r, k);
    DarkRecord(bs, none, r);
    if Preserves(bs, lit, records, order, least) {
      assert ContentsOf(bs, d.device, d.records)[order[j]] == ContentsOf(bs, lit, records)[order[j]];
      DarkRecord(bs, d.device, d.records[order[j]]);
      assert false;
    }
  }

  /** Moving the records together keeps all contents, whatever is on the device, exactly when every record
      that is moved has at most one extent and room at its new place, and nothing is copied over bytes of a
      record that waits for its turn or stays where it is. */
  lemma CompactionExact(bs: nat, device: Device, records: Records, order: seq<nat>, least: nat)
    requires bs > 0 && least <= 1 && WellKept(bs, device, records) && Enumerates(records, order)
    requires OwnBlocks(records) && StartsApart(records)
    ensures Safe(bs, |device|, records, order, least) <==> Undisturbed(bs, |device|, records, order, least)
  {
    var n := |device|;
    hide WellKept, Preserves, OwnBlocks, StartsApart, Disturbs, Cursor;
    if AllGo(n, records, order) && AllPass(bs, n, records, order, least) {
      forall d: Device | |d| == n && WellKept(bs, d, records) ensures Preserves(bs, d, records, order, least) {
        RunPreserves(bs, d, records, order, least);
      }
    } else if !AllGo(n, records, order) {
      var i :| 0 <= i < |order| && !Goes(n, records[order[i]], Cursor(records, order[..i]));
      if |records[order[i]].extents| > 1 {
        SplitSpoils(bs, device, records, order, least, i);
      } else {
        OutsideSpoils(bs, device, records, order, least, i);
      }
    } else {
      var i, j, k: nat :| 0 <= i < |order| && 0 <= j < |order| && Disturbs(bs, n, records, order, least, i, j, k);
      DisturbedSpoils(bs, device, records, order, least, i, j, k);
    }
  }

  /** An extent that is appended is put elsewhere than the ones before. */
  lemma StartsStayApart(bs: nat, device: Device, f: seq<FreeExtent>, n: nat, records: Records, id: nat,
                        g: seq<FreeExtent>, m: nat, at: nat, count: nat, len: nat)
    requires bs > 0 && WellKept(bs, device, records) && Layout(f, n, records) && StartsApart(records)
    requires id in records && count > 0 && Taken(f, n, g, m, at, count)
    ensures StartsApart(records[id := Appended(records[id], at, count, len)])
  {
    var r := records[id];
    assert WellRecord(bs, device, r);
    assert at <= at < at + count ==> Available(f, n, at);
    if r.extents != [] {
      assert FitsOn(bs, device, r.extents[0]);
      assert Owns(r, r.extents[0].block);
    }
    hide Available, Layout, WellKept;
  }

  lemma RunPreserves(bs: nat, device: Device, records: Records, order: seq<nat>, least: nat)
    requires bs > 0 && least <= 1 && WellKept(bs, device, records) && Enumerates(records, order)
    requires AllGo(|device|, records, order) && AllPass(bs, |device|, records, order, least)
    ensures Preserves(bs, device, records, order, least)
  {
    RunKeeps(bs, device, records, order, least, |order|);
    assert order[..|order|] == order;
  }

  // ----- defragmentation: the records in the order in which they lie -----

  /** The rank of a record among the hot ones, the latest mention counting; all others come last. */
  function Rank(hot: seq<nat>, id: nat): nat {
    if hot == [] then 0
    else if hot[|hot| - 1] == id then |hot| - 1
    else
      var r := Rank(hot[..|hot| - 1], id);
      if r == |hot| - 1 then |hot| else r
  }

  /** By rank, then by position. */
  predicate Precedes(records: Records, hot: seq<nat>, p: nat, q: nat) {
    p in records && q in records
    && (Rank(hot, p) < Rank(hot, q)
        || (Rank(hot, p) == Rank(hot, q) && records[p].First() < records[q].First()))
  }

  function InsertEntry(records: Records, hot: seq<nat>, id: nat, s: seq<nat>): seq<nat> {
    if s != [] && Precedes(records, hot, id, s[|s| - 1])
    then InsertEntry(records, hot, id, s[..|s| - 1]) + [s[|s| - 1]]
    else s + [id]
  }

  /** Stable sorting of the entries. */
  function InOrder(records: Records, hot: seq<nat>, entries: seq<nat>): seq<nat> {
    if entries == [] then []
    else InsertEntry(records, hot, entries[|entries| - 1], InOrder(records, hot, entries[..|entries| - 1]))
  }

  ghost predicate Ordered(records: Records, hot: seq<nat>, order: seq<nat>) {
    forall i, j :: 0 <= i < j < |order| ==> !Precedes(records, hot, order[j], order[i])
  }

  ghost predicate Distinct(s: seq<nat>) { forall i, j :: 0 <= i < j < |s| ==> s[i] != s[j] }

  lemma {:induction false} InsertedElements(records: Records, hot: seq<nat>, id: nat, s: seq<nat>)
    ensures forall q :: q in InsertEntry(records, hot, id, s) <==> q == id || q in s
  {
    if s != [] && Precedes(records, hot, id, s[|s| - 1]) {
      assert s == s[..|s| - 1] + [s[|s| - 1]];
      InsertedElements(records, hot, id, s[..|s| - 1]);
    }
  }

  lemma {:induction false} InsertedEntry(records: Records, hot: seq<nat>, id: nat, s: seq<nat>)
    requires id in records && (forall q :: q in s ==> q in records) && Ordered(records, hot, s)
    requires Distinct(s) && id !in s
    ensures Ordered(records, hot, InsertEntry(records, hot, id, s)) && Distinct(InsertEntry(records, hot, id, s))
  {
    if s != [] && Precedes(records, hot, id, s[|s| - 1]) {
      var front, last := s[..|s| - 1], s[|s| - 1];
      InsertedEntry(records, hot, id, front);
      InsertedElements(records, hot, id, front);
      var r := InsertEntry(records, hot, id, front);
      assert InsertEntry(records, hot, id, s) == r + [last];
      hide InsertEntry, Rank;
      assert Precedes(records, hot, id, last) ==> !Precedes(records, hot, last, id);
      forall i | 0 <= i < |r| ensures !Precedes(records, hot, last, r[i]) && r[i] != last {
        assert r[i] in r;
        if r[i] != id {
          assert r[i] in front;
          var k :| 0 <= k < |front| && front[k] == r[i];
          assert s[k] == r[i];
        }
      }
      hide Precedes;
    } else if s != [] {
      hide Rank;
      forall i | 0 <= i < |s| ensures !Precedes(records, hot, id, s[i]) {
        assert i < |s| - 1 ==> !Precedes(records, hot, s[|s| - 1], s[i]);
        assert s[i] in s && s[|s| - 1] in s;
      }
    }
  }

  lemma {:induction false} OrderedEntries(records: Records, hot: seq<nat>, entries: seq<nat>)
    requires Distinct(entries) && forall q :: q in entries ==> q in records
    ensures forall q :: q in InOrder(records, hot, entries) <==> q in entries
    ensures Ordered(records, hot, InOrder(records, hot, entries)) && Distinct(InOrder(records, hot, entries))
  {
    if entries == [] {
    } else {
      var front, last := entries[..|entries| - 1], entries[|entries| - 1];
      assert entries == front + [last];
      OrderedEntries(records, hot, front);
      InsertedElements(records, hot, last, InOrder(records, hot, front));
      InsertedEntry(records, hot, last, InOrder(records, hot, front));
    }
  }

  lemma {:induction false} CursorBehind(bs: nat, device: Device, records: Records, order: seq<nat>, i: nat)
    requires bs > 0 && WellKept(bs, device, records) && Enumerates(records, order) && OwnBlocks(records)
    requires Ordered(records, [], order) && InOne(records)
    requires i < |order|
    ensures Cursor(records, order[..i]) <= records[order[i]].First()
  {
    if i == 0 {
    } else {
      CursorBehind(bs, device, records, order, i - 1);
      LaterBehind(bs, device, records, order, i - 1, i);
      assert order[..i][..i - 1] == order[..i - 1];
    }
  }

  lemma LaterBehind(bs: nat, device: Device, records: Records, order: seq<nat>, i: nat, j: nat)
    requires bs > 0 && WellKept(bs, device, records) && Enumerates(records, order) && OwnBlocks(records)
    requires Ordered(records, [], order) && InOne(records)
    requires i < j < |order|
    ensures records[order[i]].Total() >= 1
    ensures records[order[i]].First() + records[order[i]].Total() <= records[order[j]].First()
  {
    var p, q := records[order[i]], records[order[j]];
    assert WellRecord(bs, device, p) && WellRecord(bs, device, q) && order[i] != order[j];
    SourceFits(bs, device, p);
    SourceFits(bs, device, q);
    assert !Precedes(records, [], order[j], order[i]);
    hide WellKept, WellRecord;
    assert Owns(q, q.First());
    assert !Owns(p, q.First());
  }

  /** Defragmentation is safe when every record has its bytes in one extent. */
  lemma InOneSafe(bs: nat, device: Device, records: Records, order: seq<nat>, least: nat)
    requires bs > 0 && least <= 1 && WellKept(bs, device, records) && Enumerates(records, order)
    requires OwnBlocks(records) && Ordered(records, [], order) && InOne(records)
    ensures Undisturbed(bs, |device|, records, order, least)
  {
    hide WellKept, OwnBlocks, Ordered, Cursor, HoldsBytes;
    forall i | 0 <= i < |order| ensures Goes(|device|, records[order[i]], Cursor(records, order[..i])) {
      InOneGoes(bs, device, records, order, i);
    }
    forall i, j, k: nat | 0 <= i < |order| && 0 <= j < |order|
      ensures !Disturbs(bs, |device|, records, order, least, i, j, k)
    {
      InOnePasses(bs, device, records, order, least, i, j, k);
    }
  }

  lemma InOneGoes(bs: nat, device: Device, records: Records, order: seq<nat>, i: nat)
    requires bs > 0 && WellKept(bs, device, records) && Enumerates(records, order) && OwnBlocks(records)
    requires Ordered(records, [], order) && InOne(records)
    requires i < |order|
    ensures Goes(|device|, records[order[i]], Cursor(records, order[..i]))
  {
    CursorBehind(bs, device, records, order, i);
    assert WellRecord(bs, device, records[order[i]]);
    SourceFits(bs, device, records[order[i]]);
  }

  lemma InOnePasses(bs: nat, device: Device, records: Records, order: seq<nat>, least: nat, i: nat, j: nat, k: nat)
    requires bs > 0 && least <= 1 && WellKept(bs, device, records) && Enumerates(records, order)
    requires OwnBlocks(records) && Ordered(records, [], order) && InOne(records)
    requires i < |order| && j < |order|
    ensures !Disturbs(bs, |device|, records, order, least, i, j, k)
  {
    if Disturbs(bs, |device|, records, order, least, i, j, k) {
      var s := records[order[j]];
      HoldingIsOwning(bs, device, s, k);
      assert WellRecord(bs, device, s) && WellRecord(bs, device, records[order[i]]);
      SourceFits(bs, device, s);
      SourceFits(bs, device, records[order[i]]);
      hide WellKept, WellRecord, HoldsBytes, Cursor, Ordered, OwnBlocks, Owns;
      CursorBehind(bs, device, records, order, i);
      if i < j {
        LaterBehind(bs, device, records, order, i, j);
      } else {
        CursorGrows(records, order, j, i);
      }
      assert false;
    }
  }

  // ----- the pass as the store makes it -----

  ghost predicate AtMostOne(records: Records) { forall id :: id in records ==> |records[id].extents| <= 1 }

  ghost predicate InOne(records: Records) { forall id :: id in records ==> |records[id].extents| == 1 }

  lemma MovedLayout(bs: nat, device: Device, records: Records, order: seq<nat>, moved: Records)
    requires bs > 0 && WellKept(bs, device, records) && Enumerates(records, order) && AtMostOne(records)
    requires AllPlaced(records, order, |order|, moved)
    ensures Layout([], Cursor(records, order), moved)
  {
    hide Cursor, WellKept, Owns, AtMostOne, Enumerates;
    forall id, b: nat | id in moved && Owns(moved[id], b) ensures b < Cursor(records, order) {
      PlacedBehind(bs, device, records, order, moved, id, b);
    }
    forall p, q, b: nat | p in moved && q in moved && p != q && Owns(moved[p], b) ensures !Owns(moved[q], b) {
      PlacedApart(bs, device, records, order, moved, p, q, b);
    }
  }

  lemma PlacedBehind(bs: nat, device: Device, records: Records, order: seq<nat>, moved: Records, id: nat, b: nat)
    requires bs > 0 && WellKept(bs, device, records) && Enumerates(records, order) && AtMostOne(records)
    requires AllPlaced(records, order, |order|, moved) && id in moved && Owns(moved[id], b)
    ensures b < Cursor(records, order)
  {
    assert order[..|order|] == order;
    hide Cursor, WellKept, Owns, AtMostOne;
    var j :| 0 <= j < |order| && order[j] == id;
    PlaceOwns(bs, device, records, order, j, b);
    CursorGrows(records, order, j, |order|);
  }

  lemma PlacedApart(bs: nat, device: Device, records: Records, order: seq<nat>, moved: Records,
                    p: nat, q: nat, b: nat)
    requires bs > 0 && WellKept(bs, device, records) && Enumerates(records, order) && AtMostOne(records)
    requires AllPlaced(records, order, |order|, moved) && p in moved && q in moved && p != q && Owns(moved[p], b)
    ensures !Owns(moved[q], b)
  {
    hide Cursor, PlaceAfter, WellKept, Owns, AtMostOne;
    var i :| 0 <= i < |order| && order[i] == p;
    var j :| 0 <= j < |order| && order[j] == q;
    PlacesApart(bs, device, records, order, i, j, b);
  }

  lemma PlacesApart(bs: nat, device: Device, records: Records, order: seq<nat>, i: nat, j: nat, b: nat)
    requires bs > 0 && WellKept(bs, device, records) && Enumerates(records, order) && AtMostOne(records)
    requires i < |order| && j < |order| && i != j && Owns(PlaceAfter(records, order, |order|, i), b)
    ensures !Owns(PlaceAfter(records, order, |order|, j), b)
  {
    hide Cursor, PlaceAfter, WellKept, Owns, AtMostOne;
    if Owns(PlaceAfter(records, order, |order|, j), b) {
      PlaceOwns(bs, device, records, order, i, b);
      PlaceOwns(bs, device, records, order, j, b);
      CursorGrows(records, order, if i < j then i else j, if i < j then j else i);
      assert false;
    }
  }

  lemma PlaceOwns(bs: nat, device: Device, records: Records, order: seq<nat>, j: nat, b: nat)
    requires bs > 0 && WellKept(bs, device, records) && Enumerates(records, order) && j < |order|
    requires AtMostOne(records) && Owns(PlaceAfter(records, order, |order|, j), b)
    ensures Cursor(records, order[..j]) <= b < Cursor(records, order[..j]) + records[order[j]].Total()
  {
    var r := records[order[j]];
    assert WellRecord(bs, device, r);
    SourceFits(bs, device, r);
    if r.extents != [] {
      assert r.extents == [r.extents[0]];
      OneTotal(r.extents[0]);
    }
  }

  /** The loop over the sorted entries. */
  method MoveTogether(s: BlockStore, order: seq<nat>, least: nat)
    requires s.Valid() && Enumerates(s.records, order) && least <= 1
    modifies s
    ensures Disk(s.device, s.records)
         == CompactAll(s.blockSize, Disk(old(s.device), old(s.records)), order, least)
    ensures s.free == [] && s.next == Cursor(old(s.records), order)
    ensures Undisturbed(s.blockSize, |old(s.device)|, old(s.records), order, least) ==>
              s.Valid() && s.Contents() == old(s.Contents())
    ensures AtMostOne(old(s.records)) ==> s.InLayout()
  {
    hide CompactAll, Cursor, MovedTo, Copied, WellKept, Enumerates, Undisturbed, AtMostOne, Layout, Stored;
    ghost var start := Disk(s.device, s.records);
    var entries := s.records;
    var cursor, i := 0, 0;
    NoTurn(s.blockSize, start, order, least);
    while i < |order|
      invariant i <= |order| && cursor == Cursor(start.records, order[..i])
      invariant Disk(s.device, entries) == CompactAll(s.blockSize, start, order[..i], least)
    {
      Turn(s.blockSize, start, order, least, Disk(s.device, entries), i);
      var r := entries[order[i]];
      if r.First() != cursor {
        if Copies(|s.device|, r, cursor, least) {
          s.device := Stored(s.blockSize, s.device, cursor, s.device[r.First()..r.First() + Copied(r, least)]);
        }
        entries := entries[order[i] := MovedTo(r, cursor)];
      }
      cursor := cursor + Max(r.Total(), 1);
      i := i + 1;
    }
    assert order[..|order|] == order;
    s.records := entries;
    s.free, s.next := [], cursor;
    MoveKeeps(s.blockSize, start.device, start.records, order, least);
  }

  lemma MoveKeeps(bs: nat, device: Device, records: Records, order: seq<nat>, least: nat)
    requires bs > 0 && WellKept(bs, device, records) && Enumerates(records, order) && least <= 1
    ensures Undisturbed(bs, |device|, records, order, least) ==> Preserves(bs, device, records, order, least)
    ensures AtMostOne(records) ==>
              var d := CompactAll(bs, Disk(device, records), order, least);
              Layout([], Cursor(records, order), d.records)
  {
    hide WellKept, AllGo, AllPass, PlaceAfter, Cursor, Preserves, AtMostOne;
    var start := Disk(device, records);
    RecordsAfter(bs, start, order, least, |order|);
    assert order[..|order|] == order;
    if AtMostOne(records) {
      MovedLayout(bs, device, records, order, CompactAll(bs, start, order, least).records);
    }
    if Undisturbed(bs, |device|, records, order, least) {
      RunPreserves(bs, device, records, order, least);
    }
  }

  /** Sorts the entries by position and moves them together. A store whose records all have their bytes in
      one extent keeps its contents and its layout. */
  method Defragment(s: BlockStore, entries: seq<nat>)
    requires s.Valid() && s.InLayout() && Enumerates(s.records, entries)
    modifies s
    ensures Disk(s.device, s.records)
         == CompactAll(s.blockSize, Disk(old(s.device), old(s.records)), InOrder(old(s.records), [], entries), 0)
    ensures Undisturbed(s.blockSize, |old(s.device)|, old(s.records), InOrder(old(s.records), [], entries), 0)
            || InOne(old(s.records)) ==>
              s.Valid() && s.Contents() == old(s.Contents())
    ensures AtMostOne(old(s.records)) ==> s.InLayout()
  {
    var order := SortedEntries(s, [], entries);
    hide WellKept, InOrder, CompactAll, Cursor, Undisturbed, Layout, AtMostOne, InOne;
    if InOne(s.records) {
      LayoutApart(s.free, s.next, s.records);
      InOneSafe(s.blockSize, s.device, s.records, order, 0);
    }
    MoveTogether(s, order, 0);
  }

  method SortedEntries(s: BlockStore, hot: seq<nat>, entries: seq<nat>) returns (order: seq<nat>)
    requires Enumerates(s.records, entries)
    ensures order == InOrder(s.records, hot, entries)
    ensures Enumerates(s.records, order) && Ordered(s.records, hot, order)
  {
    OrderedEntries(s.records, hot, entries);
    hide InOrder;
    order := InOrder(s.records, hot, entries);
  }

  /** The same with the hot entries first. */
  method ReallocateHot(s: BlockStore, hot: seq<nat>, entries: seq<nat>)
    requires s.Valid() && s.InLayout() && Enumerates(s.records, entries)
    modifies s
    ensures Disk(s.device, s.records)
         == CompactAll(s.blockSize, Disk(old(s.device), old(s.records)), InOrder(old(s.records), hot, entries), 1)
    ensures Undisturbed(s.blockSize, |old(s.device)|, old(s.records), InOrder(old(s.records), hot, entries), 1) ==>
              s.Valid() && s.Contents() == old(s.Contents())
    ensures AtMostOne(old(s.records)) ==> s.InLayout()
  {
    var order := SortedEntries(s, hot, entries);
    hide WellKept, InOrder, CompactAll, Cursor, Undisturbed, Layout, AtMostOne;
    MoveTogether(s, order, 1);
  }

  // ----- two records in each other's place -----

  lemma TwoEntries(records: Records, hot: seq<nat>, p: nat, q: nat)
    requires records.Keys == {p, q} && p != q
    ensures Enumerates(records, [p, q])
    ensures InOrder(records, hot, [p, q]) == if Precedes(records, hot, q, p) then [q, p] else [p, q]
  {
    hide Precedes;
    assert [p, q][..1] == [p] && [p][..0] == [];
    assert InsertEntry(records, hot, q, []) == [q] && InsertEntry(records, hot, p, []) == [p];
    assert InOrder(records, hot, [p]) == InsertEntry(records, hot, p, InOrder(records, hot, [])) == [p];
    assert InOrder(records, hot, [p, q]) == InsertEntry(records, hot, q, [p]);
    assert [q] + [p] == [q, p] && [p] + [q] == [p, q];
  }

  lemma TwoTurns(bs: nat, d: Disk, p: nat, q: nat, least: nat)
    requires p in d.records && q in d.records && p != q
    ensures CompactAll(bs, d, [p, q], least)
         == CompactOne(bs, CompactOne(bs, d, p, 0, least), q, Max(d.records[p].Total(), 1), least)
  {
    assert [p, q][..1] == [p] && [p][..0] == [];
    assert CompactAll(bs, d, [], least) == d && Cursor(d.records, []) == 0;
    assert CompactAll(bs, d, [p], least) == CompactOne(bs, d, p, 0, least);
    assert Cursor(d.records, [p]) == Max(d.records[p].Total(), 1);
  }

  function BlockAt(bs: nat, b: nat): Record { Record(bs, [Extent(b, 1, bs)]) }

  lemma BlockRead(bs: nat, device: Device, b: nat)
    requires bs > 0 && Rows(bs, device) && b < |device|
    ensures WellRecord(bs, device, BlockAt(bs, b)) && ReadRecord(bs, device, BlockAt(bs, b)) == device[b]
  {
    var e := Extent(b, 1, bs);
    assert FitsOn(bs, device, e);
    OneTotal(e);
    OneExtent(bs, device, e);
    RecordIsExtents(bs, device, BlockAt(bs, b));
  }

  lemma PairRead(bs: nat, device: Device, a: nat, b: nat)
    requires bs > 0 && Rows(bs, device) && a < |device| && b < |device|
    ensures var r := Record(2 * bs, [Extent(a, 1, bs), Extent(b, 1, bs)]);
            && WellRecord(bs, device, r) && r.Total() == 2 && ReadRecord(bs, device, r) == device[a] + device[b]
  {
    var e, f := Extent(a, 1, bs), Extent(b, 1, bs);
    assert FitsOn(bs, device, e) && FitsOn(bs, device, f);
    assert [e, f][..1] == [e];
    OneTotal(e);
    OneExtent(bs, device, e);
    RecordIsExtents(bs, device, Record(2 * bs, [e, f]));
  }

  /** The turn of a record of one block. */
  lemma BlockTurn(bs: nat, d: Disk, id: nat, at: nat, to: nat, least: nat)
    requires bs > 0 && Rows(bs, d.device) && id in d.records && d.records[id] == BlockAt(bs, at) && least <= 1
    requires at != to && at < |d.device| && to < |d.device|
    ensures var e := CompactOne(bs, d, id, to, least);
            && e.records == d.records[id := BlockAt(bs, to)]
            && Rows(bs, e.device) && |e.device| == |d.device| && e.device[to] == d.device[at]
            && forall k :: 0 <= k < |e.device| && k != to ==> e.device[k] == d.device[k]
  {
    var r := d.records[id];
    OneTotal(r.extents[0]);
    assert r.extents == [r.extents[0]];
    assert MovedTo(r, to) == BlockAt(bs, to);
    TurnAt(bs, d, id, to, least);
    TurnRows(bs, d, id, to, least);
    hide Stored;
  }

  /** The second of two records is hot: it is copied over the first, which is copied from there. */
  lemma HotTurns(bs: nat, d: Disk, x: Bytes, y: Bytes)
    requires bs > 0 && |d.device| >= 2 && Rows(bs, d.device) && d.device[0] == x && d.device[1] == y
    requires d.records == map[1 := BlockAt(bs, 0), 2 := BlockAt(bs, 1)]
    ensures var e := CompactAll(bs, d, [2, 1], 1);
            WellKept(bs, e.device, e.records) && 1 in e.records && ReadRecord(bs, e.device, e.records[1]) == y
  {
    OneTotal(Extent(1, 1, bs));
    TwoTurns(bs, d, 2, 1, 1);
    BlockTurn(bs, d, 2, 1, 0, 1);
    var half := CompactOne(bs, d, 2, 0, 1);
    BlockTurn(bs, half, 1, 0, 1, 1);
    var e := CompactOne(bs, half, 1, 1, 1);
    hide CompactOne, CompactAll;
    assert e.records == map[1 := BlockAt(bs, 1), 2 := BlockAt(bs, 0)];
    BlockRead(bs, e.device, 0);
    BlockRead(bs, e.device, 1);
    hide WellRecord, ReadRecord;
  }

  lemma HotEntries(bs: nat, records: Records)
    requires records == map[1 := BlockAt(bs, 0), 2 := BlockAt(bs, 1)]
    ensures Enumerates(records, [1, 2]) && InOrder(records, [2], [1, 2]) == [2, 1]
  {
    TwoEntries(records, [2], 1, 2);
    assert Precedes(records, [2], 2, 1);
  }

  /** Moving the hot second file in front of the first replaces the content of the first by its own. */
  method HotReplacesCold(policy: Policy, capacity: nat, x: Bytes, y: Bytes) returns (cold: Option<Bytes>)
    requires |x| == |y| > 0
    ensures cold == Some(y)
  {
    var s := TwoRecords(policy, capacity, x, y);
    ghost var d := Disk(s.device, s.records);
    hide Layout, Undisturbed, AtMostOne, InOrder, CompactAll, Enumerates, WellRecord, ReadRecord;
    BothOnDevice(|x|, d, x, y);
    HotEntries(|x|, s.records);
    HotTurns(|x|, d, x, y);
    ReallocateHot(s, [2], [1, 2]);
    cold := s.Read(1);
  }

  lemma BothOnDevice(bs: nat, d: Disk, x: Bytes, y: Bytes)
    requires bs > 0 && WellKept(bs, d.device, d.records)
    requires d.records == map[1 := BlockAt(bs, 0), 2 := BlockAt(bs, 1)]
    requires ContentsOf(bs, d.device, d.records) == map[1 := x, 2 := y]
    ensures |d.device| >= 2 && d.device[0] == x && d.device[1] == y
  {
    assert WellRecord(bs, d.device, d.records[2]) && WellRecord(bs, d.device, d.records[1]);
    assert FitsOn(bs, d.device, d.records[2].extents[0]);
    BlockRead(bs, d.device, 0);
    BlockRead(bs, d.device, 1);
    assert ContentsOf(bs, d.device, d.records)[1] == x && ContentsOf(bs, d.device, d.records)[2] == y;
  }

  lemma AppendedOnDevice(bs: nat, d: Disk, x: Bytes, y: Bytes, z: Bytes)
    requires bs > 0 && |x| == bs && WellKept(bs, d.device, d.records)
    requires d.records == map[1 := Record(2 * bs, [Extent(0, 1, bs), Extent(2, 1, bs)]),
                              2 := BlockAt(bs, 1)]
    requires ContentsOf(bs, d.device, d.records) == map[1 := x + z, 2 := y]
    ensures |d.device| >= 3 && d.device[0] == x && d.device[1] == y
  {
    assert WellRecord(bs, d.device, d.records[2]) && WellRecord(bs, d.device, d.records[1]);
    assert FitsOn(bs, d.device, d.records[1].extents[1]);
    PairRead(bs, d.device, 0, 2);
    BlockRead(bs, d.device, 1);
    assert ContentsOf(bs, d.device, d.records)[1] == x + z && ContentsOf(bs, d.device, d.records)[2] == y;
    assert d.device[0] == (d.device[0] + d.device[2])[..bs] == (x + z)[..bs] == x;
  }

  /** A record of the blocks 0 and 2 stays where it is, and the one between is copied to block 2. */
  lemma AppendedTurns(bs: nat, d: Disk, x: Bytes, y: Bytes)
    requires bs > 0 && |d.device| >= 3 && Rows(bs, d.device) && d.device[0] == x && d.device[1] == y
    requires d.records == map[1 := Record(2 * bs, [Extent(0, 1, bs), Extent(2, 1, bs)]),
                              2 := BlockAt(bs, 1)]
    ensures var e := CompactAll(bs, d, [1, 2], 0);
            WellKept(bs, e.device, e.records) && 1 in e.records && ReadRecord(bs, e.device, e.records[1]) == x + y
  {
    PairRead(bs, d.device, 0, 2);
    TwoTurns(bs, d, 1, 2, 0);
    assert CompactOne(bs, d, 1, 0, 0) == d;
    BlockTurn(bs, d, 2, 1, 2, 0);
    var e := CompactOne(bs, d, 2, 2, 0);
    hide CompactOne, CompactAll;
    PairRead(bs, e.device, 0, 2);
    BlockRead(bs, e.device, 2);
    hide WellRecord, ReadRecord;
  }

  /** Defragmenting a store with a file that has been appended to behind another file puts the other's
      bytes in place of the appended ones. */
  method DefragmentHitsAppended(policy: Policy, capacity: nat, x: Bytes, y: Bytes, z: Bytes)
    returns (appended: Option<Bytes>)
    requires |x| == |y| == |z| > 0
    ensures appended == Some(x + y)
  {
    var s := ExtendBehind(policy, capacity, x, y, z);
    ghost var d := Disk(s.device, s.records);
    AppendedOnDevice(|x|, d, x, y, z);
    TwoEntries(s.records, [], 1, 2);
    hide Layout, WellKept, CompactAll;
    AppendedTurns(|x|, d, x, y);
    Defragment(s, [1, 2]);
    appended := s.Read(1);
  }
}
