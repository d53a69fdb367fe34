/** The read-only nodes of a mount that have no inode: the `.snapshots` directory, one directory
    for each snapshot, and everything below, whose numbers are drawn on demand. */
module VirtualNodes {
  import opened ByteStrings
  import opened Wrappers
  import opened Paths
  import opened Storage
  import opened Snapshots

  /** Node numbers are 64 bits wide; virtual ones use the upper part. */
  const SNAPSHOTS_DIR_INO: nat := U64_MAX - 1
  const SNAP_SUBDIR_BASE: nat := U64_MAX / 2 + 1_000_000
  const VIRT_INO_BASE: nat := U64_MAX / 4

  datatype VirtKey =
    | SnapDir(snapshotId: nat, fsPath: Path)
    | SnapFile(snapshotId: nat, fsPath: Path)
    | TimeTravel(fsPath: Path, versionId: nat)

  datatype VirtNode =
    | VirtDir(snapshotId: nat, fsPath: Path, modifiedAt: nat)
    | VirtFile(bytes: Bytes, modifiedAt: nat)

  /** The numbers drawn so far, from the base downwards, and the nodes behind them. */
  datatype Interned = Interned(inos: map<VirtKey, nat>, dirs: map<nat, VirtNode>, files: map<nat, VirtNode>, next: nat)

  /** A key names a node of its kind. */
  predicate Fitting(key: VirtKey, node: VirtNode) { key.SnapDir? == node.VirtDir? }

  ghost predicate HandedOut(inos: map<VirtKey, nat>, ino: nat) { exists k :: k in inos && inos[k] == ino }

  /** Different keys have different numbers, and numbers are used up one for each key. */
  ghost predicate NumbersOk(inos: map<VirtKey, nat>, next: nat) {
    && |inos| + next == VIRT_INO_BASE
    && (forall k :: k in inos ==> next < inos[k] <= VIRT_INO_BASE)
    && (forall j, k :: j in inos && k in inos && inos[j] == inos[k] ==> j == k)
  }

  /** One of the two tables: its nodes are those of the keys of one kind. */
  ghost predicate TableOk(inos: map<VirtKey, nat>, table: map<nat, VirtNode>, dirs: bool) {
    && (forall k :: k in inos ==> (inos[k] in table <==> k.SnapDir? == dirs))
    && (forall i :: i in table ==> HandedOut(inos, i) && table[i].VirtDir? == dirs)
  }

  /** Every number drawn stands for exactly one node, in the table for its kind. */
  ghost predicate WellInterned(t: Interned) {
    NumbersOk(t.inos, t.next) && TableOk(t.inos, t.dirs, true) && TableOk(t.inos, t.files, false)
  }

  /** Nothing that was handed out has changed. */
  ghost predicate Extends(t: Interned, u: Interned) {
    && (forall k :: k in t.inos ==> k in u.inos && u.inos[k] == t.inos[k])
    && (forall i :: i in t.dirs ==> i in u.dirs && u.dirs[i] == t.dirs[i])
    && (forall i :: i in t.files ==> i in u.files && u.files[i] == t.files[i])
  }

  /** The tables after a request for the node of a key. */
  function Entered(t: Interned, key: VirtKey, node: VirtNode): Interned
    requires t.next > 0
  {
    if key in t.inos then t
    else Interned(t.inos[key := t.next],
                  if node.VirtDir? then t.dirs[t.next := node] else t.dirs,
                  if node.VirtDir? then t.files else t.files[t.next := node],
                  t.next - 1)
  }

  lemma HandedOutMore(inos: map<VirtKey, nat>, key: VirtKey, ino: nat, i: nat)
    requires key !in inos
    ensures HandedOut(inos[key := ino], i) <==> HandedOut(inos, i) || i == ino
  {
    var more := inos[key := ino];
    assert key in more && more[key] == ino;
    if k :| k in inos && inos[k] == i { assert k in more && more[k] == i; }
  }

  lemma NextNumber(inos: map<VirtKey, nat>, next: nat, key: VirtKey)
    requires NumbersOk(inos, next) && next > 0 && key !in inos
    ensures NumbersOk(inos[key := next], next - 1) && !HandedOut(inos, next)
  {
    assert |inos[key := next]| == |inos| + 1;
  }

  lemma NextNode(inos: map<VirtKey, nat>, table: map<nat, VirtNode>, key: VirtKey, ino: nat, node: VirtNode, dirs: bool)
    requires TableOk(inos, table, dirs) && key !in inos && !HandedOut(inos, ino) && Fitting(key, node)
    ensures TableOk(inos[key := ino], if node.VirtDir? == dirs then table[ino := node] else table, dirs)
    ensures ino !in table
  {
    forall i { HandedOutMore(inos, key, ino, i); }
    forall k | k in inos ensures inos[k] != ino { assert HandedOut(inos, inos[k]); }
    hide HandedOut;
  }

  lemma EnteredKeeps(t: Interned, key: VirtKey, node: VirtNode)
    requires WellInterned(t) && t.next > 0 && Fitting(key, node)
    ensures WellInterned(Entered(t, key, node)) && Extends(t, Entered(t, key, node))
    ensures key in Entered(t, key, node).inos
  {
    hide TableOk, NumbersOk, HandedOut, Fitting;
    if key !in t.inos {
      NextNumber(t.inos, t.next, key);
      NextNode(t.inos, t.dirs, key, t.next, node, true);
      NextNode(t.inos, t.files, key, t.next, node, false);
    }
  }

  lemma NothingInterned()
    ensures WellInterned(Interned(map[], map[], map[], VIRT_INO_BASE))
  {
  }

  lemma InternedInSpan(t: Interned, ino: nat)
    requires WellInterned(t) && (ino in t.dirs || ino in t.files)
    ensures t.next < ino <= VIRT_INO_BASE
  {
    assert HandedOut(t.inos, ino);
  }

  lemma ExtendsTransitive(t: Interned, u: Interned, v: Interned)
    requires Extends(t, u) && Extends(u, v)
    ensures Extends(t, v)
  {
  }

  /** The tables after a run of requests. */
  function EnteredAll(t: Interned, requests: seq<(VirtKey, VirtNode)>): (u: Interned)
    requires |requests| <= t.next
    ensures u.next >= t.next - |requests|
  {
    if requests == [] then t
    else
      var front := EnteredAll(t, requests[..|requests| - 1]);
      Entered(front, requests[|requests| - 1].0, requests[|requests| - 1].1)
  }

  /** Over any run that the number space has room for, the tables stay in order and every key that
      was asked for has a number. */
  lemma {:induction false} EnteredAllKeeps(t: Interned, requests: seq<(VirtKey, VirtNode)>)
    requires WellInterned(t) && |requests| <= t.next
    requires forall i :: 0 <= i < |requests| ==> Fitting(requests[i].0, requests[i].1)
    ensures WellInterned(EnteredAll(t, requests))
    ensures forall i :: 0 <= i < |requests| ==> requests[i].0 in EnteredAll(t, requests).inos
  {
    hide WellInterned, Entered, Fitting;
    if requests == [] {
    } else {
      var front, last := requests[..|requests| - 1], requests[|requests| - 1];
      EnteredAllKeeps(t, front);
      EnteredKeeps(EnteredAll(t, front), last.0, last.1);
      forall i | 0 <= i < |requests| ensures requests[i].0 in EnteredAll(t, requests).inos {
        if i < |front| { assert front[i] == requests[i]; }
      }
    }
  }

  /** And a number handed out at any point of the run stays what it was to the end. */
  lemma {:induction false} NumbersStay(t: Interned, requests: seq<(VirtKey, VirtNode)>, k: nat)
    requires WellInterned(t) && k <= |requests| <= t.next
    requires forall i :: 0 <= i < |requests| ==> Fitting(requests[i].0, requests[i].1)
    ensures Extends(EnteredAll(t, requests[..k]), EnteredAll(t, requests))
  {
    if k == |requests| {
      assert requests[..k] == requests;
    } else {
      hide WellInterned, Entered, Fitting, Extends;
      var front, last := requests[..|requests| - 1], requests[|requests| - 1];
      assert EnteredAll(t, requests) == Entered(EnteredAll(t, front), last.0, last.1);
      hide EnteredAll;
      assert front[..k] == requests[..k];
      NumbersStay(t, front, k);
      EnteredAllKeeps(t, front);
      EnteredKeeps(EnteredAll(t, front), last.0, last.1);
      ExtendsTransitive(EnteredAll(t, front[..k]), EnteredAll(t, front), EnteredAll(t, requests));
    }
  }

  // ----- the shared number space -----

  /** The snapshot whose directory has the number. */
  function SnapshotForSubdirIno(snapshots: seq<Snapshot>, ino: nat): Option<nat> {
    if ino <= SNAP_SUBDIR_BASE then None
    else match Find(snapshots, ino - SNAP_SUBDIR_BASE)
         case Some(s) => Some(s.id)
         case None => None
  }

  lemma {:induction false} FindExact(snapshots: seq<Snapshot>, id: nat)
    ensures Find(snapshots, id).Some? <==> exists i :: 0 <= i < |snapshots| && snapshots[i].id == id
    ensures Find(snapshots, id).Some? ==> Find(snapshots, id).value.id == id
  {
    if snapshots == [] || snapshots[0].id == id {
    } else {
      FindExact(snapshots[1..], id);
      if i :| 0 <= i < |snapshots| && snapshots[i].id == id { assert snapshots[1..][i - 1].id == id; }
    }
  }

  /** The number of a snapshot's directory leads back to the snapshot, and no other number does. */
  lemma SubdirInoExact(snapshots: seq<Snapshot>, ino: nat, id: nat)
    ensures SnapshotForSubdirIno(snapshots, ino) == Some(id)
      <==> ino == SNAP_SUBDIR_BASE + id && id > 0 && exists i :: 0 <= i < |snapshots| && snapshots[i].id == id
  {
    if ino > SNAP_SUBDIR_BASE { FindExact(snapshots, ino - SNAP_SUBDIR_BASE); }
  }

  /** Numbers of inodes up to the given id, root included. */
  predicate RealSpan(lastId: nat, ino: nat) { 1 <= ino <= lastId + 1 }

  predicate InternedSpan(next: nat, ino: nat) { next < ino <= VIRT_INO_BASE }

  predicate SubdirSpan(lastSnapshot: nat, ino: nat) { SNAP_SUBDIR_BASE < ino <= SNAP_SUBDIR_BASE + lastSnapshot }

  ghost predicate OneSpanEach(lastId: nat, next: nat, lastSnapshot: nat) {
    forall ino: nat ::
      && !(RealSpan(lastId, ino) && InternedSpan(next, ino))
      && !(RealSpan(lastId, ino) && SubdirSpan(lastSnapshot, ino))
      && !(InternedSpan(next, ino) && SubdirSpan(lastSnapshot, ino))
      && (ino == SNAPSHOTS_DIR_INO ==>
            !RealSpan(lastId, ino) && !InternedSpan(next, ino) && !SubdirSpan(lastSnapshot, ino))
  }

  /** The four kinds of numbers stay apart exactly as long as inode ids have not reached the
      interned numbers coming down towards them, nor the snapshot directories if there are any,
      and snapshot ids have not reached the number of `.snapshots`. */
  lemma SpansApart(lastId: nat, next: nat, lastSnapshot: nat)
    requires next <= VIRT_INO_BASE
    ensures OneSpanEach(lastId, next, lastSnapshot) <==>
            && (next == VIRT_INO_BASE || lastId + 1 <= next)
            && (lastSnapshot == 0 || lastId + 1 <= SNAP_SUBDIR_BASE)
            && lastId + 1 < SNAPSHOTS_DIR_INO
            && SNAP_SUBDIR_BASE + lastSnapshot < SNAPSHOTS_DIR_INO
  {
    if next < VIRT_INO_BASE && lastId + 1 > next {
      assert RealSpan(lastId, next + 1) && InternedSpan(next, next + 1);
    }
    if lastSnapshot > 0 && lastId + 1 > SNAP_SUBDIR_BASE {
      assert RealSpan(lastId, SNAP_SUBDIR_BASE + 1) && SubdirSpan(lastSnapshot, SNAP_SUBDIR_BASE + 1);
    }
    if lastId + 1 >= SNAPSHOTS_DIR_INO { assert RealSpan(lastId, SNAPSHOTS_DIR_INO); }
    if SNAP_SUBDIR_BASE + lastSnapshot >= SNAPSHOTS_DIR_INO { assert SubdirSpan(lastSnapshot, SNAPSHOTS_DIR_INO); }
  }
}
