/** Open-file handles of a mount and what its nodes cache, as values: what a handle shows, when all
    handles are in order, and what the operations leave of that. */
module FuseHandles {
  import opened ByteStrings
  import opened Wrappers
  import opened Paths
  import opened Storage
  import opened Volumes
  import opened Changes
  import opened Renaming
  import opened Snapshots
  import opened Services
  import opened WriteBack
  import opened FuseIndex
  import opened TreeShape

  datatype OpenFileHandle = OpenFileHandle(ino: nat, path: Path, data: Bytes, committedSize: nat, dirty: bool)

  datatype WriteOutcome = Written(count: nat) | Failed(error: Error) | Panicked

  function FromOffset(offset: int): nat { if offset < 0 then 0 else offset }

  /** The bytes the service has for a path, none when it cannot be read. */
  function ServedBytes(cfg: Config, v: Volume, path: Path): Bytes {
    match ReadFile(cfg, v, path)
    case Ok(b) => b
    case Err(_) => []
  }

  function ViewOf(cfg: Config, v: Volume, h: OpenFileHandle): Cached {
    Cached(ServedBytes(cfg, v, h.path), h.committedSize, h.data)
  }

  /** A handle that has started streaming has its prefix in a readable file of the service. */
  ghost predicate HandleOk(cfg: Config, v: Volume, h: OpenFileHandle) {
    h.committedSize > 0 ==>
      ReadFile(cfg, v, h.path).Ok? && v.active[h.path].kind == File && ViewOf(cfg, v, h).WellFormed()
  }

  /** What a handle shows depends on its own file only. */
  lemma HandleStays(cfg: Config, v: Volume, w: Volume, h: OpenFileHandle)
    requires HandleOk(cfg, v, h) && SameAt(cfg, v, w, h.path)
    ensures HandleOk(cfg, w, h)
    ensures h.committedSize > 0 ==> ViewOf(cfg, w, h) == ViewOf(cfg, v, h)
    ensures ViewOf(cfg, w, h).WellFormed() && ViewOf(cfg, v, h).WellFormed()
    ensures ViewOf(cfg, w, h).Logical() == ViewOf(cfg, v, h).Logical()
  {
  }

  /** All handles are in order, and no two of them stream into one file. */
  ghost predicate AllHandlesOk(cfg: Config, v: Volume, handles: map<nat, OpenFileHandle>) {
    && (forall f :: f in handles ==> HandleOk(cfg, v, handles[f]))
    && (forall f, g :: f in handles && g in handles && f != g
                       && handles[f].committedSize > 0 && handles[g].committedSize > 0 ==>
          handles[f].path != handles[g].path)
  }

  /** No other handle streams into the file of this one. */
  ghost predicate Sole(handles: map<nat, OpenFileHandle>, fh: nat) {
    fh in handles ==>
      forall g :: g in handles && g != fh && handles[g].committedSize > 0 ==> handles[g].path != handles[fh].path
  }

  /** The operation served handle `fh` alone: all other handles are as they were, show the same file and
      are in step with the service as before. */
  ghost predicate OthersSame(cfg: Config, v: Volume, w: Volume, a: map<nat, OpenFileHandle>,
                             b: map<nat, OpenFileHandle>, fh: nat) {
    && a.Keys == b.Keys
    && forall g :: g in a && g != fh ==>
         && a[g] == b[g]
         && ViewOf(cfg, v, a[g]).WellFormed() && ViewOf(cfg, w, b[g]).WellFormed()
         && ViewOf(cfg, v, a[g]).Logical() == ViewOf(cfg, w, b[g]).Logical()
         && (ViewOf(cfg, v, a[g]).InStep() <==> ViewOf(cfg, w, b[g]).InStep())
         && (a[g].committedSize > 0 ==> ViewOf(cfg, v, a[g]) == ViewOf(cfg, w, b[g]))
  }

  lemma AllHandlesOne(cfg: Config, v: Volume, handles: map<nat, OpenFileHandle>, fh: nat)
    requires AllHandlesOk(cfg, v, handles) && fh in handles
    ensures HandleOk(cfg, v, handles[fh])
  {
  }

  lemma NoHandles(cfg: Config, v: Volume)
    ensures AllHandlesOk(cfg, v, map[])
  {
  }

  lemma NewHandle(cfg: Config, v: Volume, handles: map<nat, OpenFileHandle>, fh: nat, h: OpenFileHandle)
    requires AllHandlesOk(cfg, v, handles) && h.committedSize == 0
    ensures AllHandlesOk(cfg, v, handles[fh := h])
  {
  }

  lemma FewerHandles(cfg: Config, v: Volume, handles: map<nat, OpenFileHandle>, fh: nat)
    requires AllHandlesOk(cfg, v, handles)
    ensures AllHandlesOk(cfg, v, handles - {fh})
  {
    hide HandleOk;
  }

  lemma ServedAlone(cfg: Config, v: Volume, w: Volume, a: map<nat, OpenFileHandle>, h: OpenFileHandle, fh: nat)
    requires AllHandlesOk(cfg, v, a) && Sole(a, fh) && fh in a && h.path == a[fh].path
    requires HandleOk(cfg, w, h) && forall q :: q != h.path ==> SameAt(cfg, v, w, q)
    ensures AllHandlesOk(cfg, w, a[fh := h]) && OthersSame(cfg, v, w, a, a[fh := h], fh)
  {
    forall g | g in a && g != fh
      ensures HandleOk(cfg, w, a[g])
      ensures ViewOf(cfg, v, a[g]).WellFormed() && ViewOf(cfg, w, a[g]).WellFormed()
      ensures ViewOf(cfg, v, a[g]).Logical() == ViewOf(cfg, w, a[g]).Logical()
      ensures ViewOf(cfg, v, a[g]).InStep() <==> ViewOf(cfg, w, a[g]).InStep()
      ensures a[g].committedSize > 0 ==> ViewOf(cfg, v, a[g]) == ViewOf(cfg, w, a[g])
    {
      assert HandleOk(cfg, v, a[g]);
      if a[g].committedSize > 0 { HandleStays(cfg, v, w, a[g]); }
    }
  }

  lemma RewrittenElsewhere(cfg: Config, saved: map<nat, Bytes>, v: Volume, w: Volume, path: Path)
    requires Rewritten(cfg, saved, v, w, path)
    ensures forall q :: q != path ==> SameAt(cfg, v, w, q)
    ensures SameSkeleton(v.active, w.active)
  {
    forall q | q != path ensures SameAt(cfg, v, w, q) { UpdatedElsewhere(cfg, saved, v, w, path, q); }
  }

  lemma Unchanged(cfg: Config, v: Volume)
    ensures forall q :: SameAt(cfg, v, v, q)
    ensures SameSkeleton(v.active, v.active)
  {
    forall q { UnchangedIsSame(cfg, v, v, q); }
  }

  /** Whether there still is an inode for the number. */
  predicate NodeHasInode(nodes: map<nat, FuseNode>, ino: nat) { ino in nodes && nodes[ino].inode.Some? }

  /** Why the service refuses what the handle hands over. */
  ghost function HandOverRefusal(cfg: Config, v: Volume, h: OpenFileHandle): Option<Error> {
    if h.committedSize == 0 then ResizeRefusal(cfg, v, h.path, |h.data|) else ExtendRefusal(cfg, v, h.path)
  }

  /** Why the service refuses the handle's final write-back; with nothing to hand over it is not asked. */
  ghost function FlushRefusal(cfg: Config, v: Volume, h: OpenFileHandle): Option<Error> {
    if h.committedSize > 0 && h.data == [] then None else HandOverRefusal(cfg, v, h)
  }

  /** The service has what the flush of the handle had to hand over. */
  ghost predicate Flushed(cfg: Config, v: Volume, w: Volume, h: OpenFileHandle) {
    && h.path in w.active && w.active[h.path].kind == File
    && ReadFile(cfg, w, h.path) == Ok(ViewOf(cfg, v, h).Handed())
  }

  /** The flush leaves what the handle shows as it is, loses step exactly when it handed something over
      behind a prefix, and gives the service the file as its writer sees it exactly when the handle
      was in step. */
  ghost predicate FlushShown(cfg: Config, v: Volume, w: Volume, h: OpenFileHandle) {
    var c, d := ViewOf(cfg, v, h), ViewOf(cfg, w, h);
    && c.WellFormed() && d.WellFormed() && d == c.Flush() && d.Logical() == c.Logical()
    && (d.InStep() <==> c.InStep() && (c.committed == 0 || c.data == []))
    && (ReadFile(cfg, w, h.path) == Ok(c.Logical()) <==> c.InStep())
  }

  lemma FlushedView(cfg: Config, v: Volume, w: Volume, h: OpenFileHandle)
    requires HandleOk(cfg, v, h) && Flushed(cfg, v, w, h)
    ensures FlushShown(cfg, v, w, h)
  {
    FlushExact(ViewOf(cfg, v, h));
    FlushLosesStep(ViewOf(cfg, v, h));
  }

  /** What becomes of a write on a handle. */
  ghost function PlaceAnswer(cfg: Config, v: Volume, h: OpenFileHandle, threshold: nat, start: nat,
                             bytes: Bytes): WriteOutcome {
    var view := ViewOf(cfg, v, h);
    if view.Panics(start, bytes) then Panicked
    else if view.FlushDue(threshold, start, bytes) && view.data != [] && HandOverRefusal(cfg, v, h).Some?
    then Failed(State)
    else Written(|bytes|)
  }

  /** What becomes of a write through a handle number. */
  ghost function WriteAnswer(cfg: Config, v: Volume, handles: map<nat, OpenFileHandle>, threshold: nat, ino: nat,
                             fh: nat, start: nat, bytes: Bytes): WriteOutcome {
    if fh !in handles || handles[fh].ino != ino then Failed(State)
    else PlaceAnswer(cfg, v, handles[fh], threshold, start, bytes)
  }

  /** The write is the first of its handle to be streamed. */
  predicate StreamingStarts(handles: map<nat, OpenFileHandle>, threshold: nat, ino: nat, fh: nat, start: nat,
                            bytes: Bytes) {
    && fh in handles && handles[fh].ino == ino && handles[fh].committedSize == 0
    && start == |handles[fh].data| && |handles[fh].data| + |bytes| > threshold
  }

  /** What becomes of the final write-back of a handle, in the order of the checks. */
  ghost function FlushAnswer(cfg: Config, v: Volume, handles: map<nat, OpenFileHandle>, nodes: map<nat, FuseNode>,
                             fh: nat): Result<bool> {
    if fh !in handles || !handles[fh].dirty then Ok(false)
    else if !NodeHasInode(nodes, handles[fh].ino) then Err(State)
    else match FlushRefusal(cfg, v, handles[fh])
         case None => Ok(true)
         case Some(e) => Err(e)
  }

  /** The flush gets as far as starting a session. */
  predicate FlushStarts(handles: map<nat, OpenFileHandle>, nodes: map<nat, FuseNode>, fh: nat) {
    fh in handles && handles[fh].dirty && NodeHasInode(nodes, handles[fh].ino)
  }

  /** The handle `fh` has taken the write as its cache says, which is a splice on the file as its writer sees
      it; all other handles and files are left alone. */
  ghost predicate HandleWritten(cfg: Config, v: Volume, w: Volume, a: map<nat, OpenFileHandle>,
                                b: map<nat, OpenFileHandle>, fh: nat, threshold: nat, start: nat, bytes: Bytes) {
    && fh in a && fh in b
    && var view := ViewOf(cfg, v, a[fh]).Write(threshold, start, bytes);
    && b[fh] == a[fh].(data := view.data, committedSize := view.committed, dirty := true)
    && ViewOf(cfg, w, b[fh]) == view
    && Splices(ViewOf(cfg, v, a[fh]), ViewOf(cfg, w, b[fh]), threshold, start, bytes)
    && OthersSame(cfg, v, w, a, b, fh)
    && (forall q :: q != a[fh].path ==> SameAt(cfg, v, w, q)) && SameSkeleton(v.active, w.active)
  }

  /** The dirty handle `fh` has been written back; all other handles and files are left alone. */
  ghost predicate HandleFlushed(cfg: Config, v: Volume, w: Volume, a: map<nat, OpenFileHandle>,
                                b: map<nat, OpenFileHandle>, fh: nat) {
    && fh in a && fh in b && b[fh] == a[fh].(dirty := false)
    && Flushed(cfg, v, w, a[fh]) && FlushShown(cfg, v, w, a[fh])
    && OthersSame(cfg, v, w, a, b, fh)
    && (forall q :: q != a[fh].path ==> SameAt(cfg, v, w, q))
  }

  lemma WrittenHandle(cfg: Config, v: Volume, w: Volume, a: map<nat, OpenFileHandle>, h: OpenFileHandle, fh: nat,
                      threshold: nat, start: nat, bytes: Bytes)
    requires fh in a && HandleOk(cfg, v, a[fh])
    requires PlaceAnswer(cfg, v, a[fh], threshold, start, bytes).Written?
    requires ViewOf(cfg, w, h) == ViewOf(cfg, v, a[fh]).Write(threshold, start, bytes)
    requires h == a[fh].(data := h.data, committedSize := h.committedSize, dirty := true)
    requires OthersSame(cfg, v, w, a, a[fh := h], fh) && SameSkeleton(v.active, w.active)
    requires forall q :: q != a[fh].path ==> SameAt(cfg, v, w, q)
    ensures HandleWritten(cfg, v, w, a, a[fh := h], fh, threshold, start, bytes)
  {
    hide SameAt, OthersSame, ServedBytes, Cached.Write, Splices, SameSkeleton;
    WriteSplices(ViewOf(cfg, v, a[fh]), threshold, start, bytes);
  }

  lemma FlushedHandle(cfg: Config, v: Volume, w: Volume, a: map<nat, OpenFileHandle>, fh: nat)
    requires fh in a && HandleOk(cfg, v, a[fh]) && Flushed(cfg, v, w, a[fh])
    requires OthersSame(cfg, v, w, a, a[fh := a[fh].(dirty := false)], fh)
    requires forall q :: q != a[fh].path ==> SameAt(cfg, v, w, q)
    ensures HandleFlushed(cfg, v, w, a, a[fh := a[fh].(dirty := false)], fh)
  {
    hide SameAt, OthersSame, FlushShown, Flushed;
    FlushedView(cfg, v, w, a[fh]);
  }

  function DirtyHandles(handles: map<nat, OpenFileHandle>): set<nat> { set f | f in handles && handles[f].dirty }

  lemma DirtyOpen(handles: map<nat, OpenFileHandle>, fh: nat)
    requires fh in DirtyHandles(handles)
    ensures fh in handles && handles[fh].dirty
  {
  }

  /** No two dirty handles, and no dirty and streaming one, are open on one file. */
  ghost predicate DirtyApart(handles: map<nat, OpenFileHandle>) {
    forall f, g :: f in handles && g in handles && f != g && handles[f].dirty
                   && (handles[g].dirty || handles[g].committedSize > 0) ==>
      handles[f].path != handles[g].path
  }

  /** The handles in `done` have been written back, and no other handle or file has changed. */
  ghost predicate AllFlushed(cfg: Config, v: Volume, w: Volume, a: map<nat, OpenFileHandle>,
                             b: map<nat, OpenFileHandle>, done: set<nat>) {
    && a.Keys == b.Keys && done <= DirtyHandles(a)
    && (forall f :: f in a ==> b[f] == if f in done then a[f].(dirty := false) else a[f])
    && (forall f :: f in done ==> Flushed(cfg, v, w, a[f]))
    && (forall q :: (forall f :: f in done ==> a[f].path != q) ==> SameAt(cfg, v, w, q))
  }

  lemma NothingFlushed(cfg: Config, v: Volume, a: map<nat, OpenFileHandle>)
    ensures AllFlushed(cfg, v, v, a, a, {})
  {
    forall q ensures SameAt(cfg, v, v, q) {}
  }

  lemma NextFlush(cfg: Config, v: Volume, w: Volume, a: map<nat, OpenFileHandle>, b: map<nat, OpenFileHandle>,
                  done: set<nat>, fh: nat)
    requires DirtyApart(a) && AllFlushed(cfg, v, w, a, b, done) && fh in DirtyHandles(a) && fh !in done
    ensures fh in b && b[fh] == a[fh] && b[fh].dirty && Sole(b, fh) && SameAt(cfg, v, w, a[fh].path)
  {
    hide SameAt, Flushed;
    forall f | f in done ensures a[f].path != a[fh].path {}
  }

  lemma FlushedOne(cfg: Config, v: Volume, w: Volume, x: Volume, a: map<nat, OpenFileHandle>,
                   b: map<nat, OpenFileHandle>, done: set<nat>, fh: nat)
    requires DirtyApart(a) && AllFlushed(cfg, v, w, a, b, done) && fh in DirtyHandles(a) && fh !in done
    requires AllHandlesOk(cfg, w, b) && Flushed(cfg, w, x, b[fh])
    requires forall q :: q != a[fh].path ==> SameAt(cfg, w, x, q)
    ensures AllFlushed(cfg, v, x, a, b[fh := a[fh].(dirty := false)], done + {fh})
  {
    NextFlush(cfg, v, w, a, b, done, fh);
    assert HandleOk(cfg, w, b[fh]);
    assert Flushed(cfg, v, x, a[fh]) by { SameHanded(cfg, v, w, x, a[fh]); }
    forall f | f in done ensures Flushed(cfg, v, x, a[f]) {
      assert Flushed(cfg, v, w, a[f]) && SameAt(cfg, w, x, a[f].path);
    }
    forall q | forall f :: f in done + {fh} ==> a[f].path != q ensures SameAt(cfg, v, x, q) {
      assert fh in done + {fh};
      forall f | f in done ensures a[f].path != q { assert f in done + {fh}; }
      SameAtTransitive(cfg, v, w, x, q);
    }
  }

  /** What each handle written back has left in the service. */
  lemma DoneShown(cfg: Config, v: Volume, w: Volume, a: map<nat, OpenFileHandle>, b: map<nat, OpenFileHandle>,
                  done: set<nat>)
    requires AllHandlesOk(cfg, v, a) && AllFlushed(cfg, v, w, a, b, done)
    ensures forall f :: f in done ==> f in a && FlushShown(cfg, v, w, a[f])
  {
    hide FlushShown, HandleOk, Flushed, SameAt;
    forall f | f in done ensures f in a && FlushShown(cfg, v, w, a[f]) { FlushedView(cfg, v, w, a[f]); }
  }

  lemma SameHanded(cfg: Config, v: Volume, w: Volume, x: Volume, h: OpenFileHandle)
    requires SameAt(cfg, v, w, h.path) && HandleOk(cfg, w, h) && Flushed(cfg, w, x, h)
    ensures Flushed(cfg, v, x, h)
  {
  }

  lemma NewFileEmpty(cfg: Config, saved: map<nat, Bytes>, v: Volume, w: Volume, path: Path)
    requires Updated(cfg, saved, v, w, path, Regular(Some([])))
    ensures ReadFile(cfg, w, path) == Ok([])
  {
    hide Covers, Faithful;
    assert Tree(cfg, w)[path] == Regular(Some([]));
  }

  /** No handle streams into a file. */
  ghost predicate NotStreamed(handles: map<nat, OpenFileHandle>, p: Path) {
    forall f :: f in handles && handles[f].committedSize > 0 ==> handles[f].path != p
  }

  /** No handle streams into a file of the subtree. */
  ghost predicate NoneStreamed(handles: map<nat, OpenFileHandle>, top: Path) {
    forall f :: f in handles && handles[f].committedSize > 0 ==> !InSubtree(top, handles[f].path)
  }

  /** Handles stay in order when the files they stream into stay. */
  lemma HandlesStay(cfg: Config, v: Volume, w: Volume, handles: map<nat, OpenFileHandle>)
    requires AllHandlesOk(cfg, v, handles)
    requires forall f :: f in handles && handles[f].committedSize > 0 ==> SameAt(cfg, v, w, handles[f].path)
    ensures AllHandlesOk(cfg, w, handles)
  {
    forall f | f in handles ensures HandleOk(cfg, w, handles[f]) {
      assert HandleOk(cfg, v, handles[f]);
      if handles[f].committedSize > 0 { HandleStays(cfg, v, w, handles[f]); }
    }
  }

  lemma HandlesStaySame(cfg: Config, v: Volume, w: Volume, handles: map<nat, OpenFileHandle>)
    requires AllHandlesOk(cfg, v, handles) && SameEntries(v, w)
    ensures AllHandlesOk(cfg, w, handles)
  {
    forall f | f in handles ensures SameAt(cfg, v, w, handles[f].path) { UnchangedIsSame(cfg, v, w, handles[f].path); }
    HandlesStay(cfg, v, w, handles);
  }

  lemma HandlesStayAdded(cfg: Config, saved: map<nat, Bytes>, v: Volume, w: Volume, path: Path, node: Node,
                         handles: map<nat, OpenFileHandle>)
    requires AllHandlesOk(cfg, v, handles) && Updated(cfg, saved, v, w, path, node) && path !in v.active
    ensures AllHandlesOk(cfg, w, handles)
  {
    hide Covers, Faithful;
    forall f | f in handles && handles[f].committedSize > 0 ensures SameAt(cfg, v, w, handles[f].path) {
      assert HandleOk(cfg, v, handles[f]);
      UpdatedElsewhere(cfg, saved, v, w, path, handles[f].path);
    }
    HandlesStay(cfg, v, w, handles);
  }

  // ----- handles on files that are removed or renamed -----

  /** What is written to the path from now on goes to the file that was there before. */
  ghost predicate SameFileAt(v: Volume, w: Volume, p: Path) {
    p in v.active && p in w.active && v.active[p].id == w.active[p].id
  }

  /** Exactly the handles on other paths still reach their files. */
  lemma TrashedReaches(v: Volume, path: Path)
    requires path in v.active
    ensures forall p :: p in v.active ==> (SameFileAt(v, Trashed(v, path), p) <==> p != path)
  {
  }

  /** Soft-deleting keeps the handles in order exactly when none streams into the file. */
  lemma HandlesAfterTrash(cfg: Config, v: Volume, path: Path, handles: map<nat, OpenFileHandle>)
    requires AllHandlesOk(cfg, v, handles) && path in v.active
    ensures AllHandlesOk(cfg, Trashed(v, path), handles) <==> NotStreamed(handles, path)
  {
    var w := Trashed(v, path);
    if NotStreamed(handles, path) {
      forall f | f in handles && handles[f].committedSize > 0 ensures SameAt(cfg, v, w, handles[f].path) {
        assert HandleOk(cfg, v, handles[f]);
      }
      HandlesStay(cfg, v, w, handles);
    } else {
      var f :| f in handles && handles[f].committedSize > 0 && handles[f].path == path;
      assert !HandleOk(cfg, w, handles[f]);
    }
  }

  /** The volume `w` is `v` after a rename that found its way clear. */
  ghost predicate CleanlyRenamed(v: Volume, w: Volume, from: Path, to: Path, now: nat) {
    && from in v.active && !InSubtree(from, to)
    && var base := RenameBase(v, to);
    && w == base.(active := w.active)
    && Clear(base.active, SubtreeMoves(base.active, from, to))
    && Relocated(base.active, SubtreeMoves(base.active, from, to), now, w.active)
  }

  /** Exactly the paths outside of the moved subtree and other than the target still lead to the files
      they led to: below the old place there is nothing, and at the target there is the moved file. */
  ghost predicate FilesMoved(v: Volume, w: Volume, from: Path, to: Path) {
    && (forall p :: p in v.active ==> (SameFileAt(v, w, p) <==> p != to && !InSubtree(from, p)))
    && (forall p :: p in v.active && InSubtree(from, p) ==> p !in w.active)
    && from in v.active && to in w.active && w.active[to].id == v.active[from].id
  }

  lemma MovedAway(v: Volume, w: Volume, from: Path, to: Path, now: nat, p: Path)
    requires CleanlyRenamed(v, w, from, to, now) && p in v.active && InSubtree(from, p)
    ensures p !in w.active
  {
    var base := RenameBase(v, to).active;
    var mv := SubtreeMoves(base, from, to);
    assert p in mv && p in base;
    forall x | x in mv ensures mv[x] != p { assert mv[x] !in base; }
  }

  lemma MovedThere(v: Volume, w: Volume, from: Path, to: Path, now: nat)
    requires DistinctIds(v.active) && CleanlyRenamed(v, w, from, to, now)
    ensures to in w.active && w.active[to].id == v.active[from].id && !SameFileAt(v, w, to)
  {
    var base := RenameBase(v, to).active;
    assert from in base && from in SubtreeMoves(base, from, to) && Moved(from, to, from) == to;
  }

  lemma RenameReaches(v: Volume, w: Volume, from: Path, to: Path, now: nat)
    requires DistinctIds(v.active) && CleanlyRenamed(v, w, from, to, now)
    ensures FilesMoved(v, w, from, to)
  {
    assert from in v.active;
    hide CleanlyRenamed, DistinctIds, InSubtree;
    MovedThere(v, w, from, to, now);
    forall p | p in v.active && InSubtree(from, p) ensures p !in w.active { MovedAway(v, w, from, to, now, p); }
    forall p | p in v.active && p != to && !InSubtree(from, p) ensures SameFileAt(v, w, p) {
      RenamedElsewhere(v, w, from, to, now, p);
    }
  }

  lemma SoundRename(v: Volume, w: Volume, from: Path, to: Path, now: nat)
    requires Sound(v) && from in v.active && from != to && Proper(from) && from != "/" && Proper(to)
    requires !InSubtree(from, ParentPath(to)) && w == RenameBase(v, to).(active := w.active)
    requires var base := RenameBase(v, to).active;
             Clear(base, SubtreeMoves(base, from, to)) && Relocated(base, SubtreeMoves(base, from, to), now, w.active)
    ensures CleanlyRenamed(v, w, from, to, now) && FilesMoved(v, w, from, to)
  {
    TargetOutside(from, to);
    hide FilesMoved;
    RenameReaches(v, w, from, to, now);
  }

  lemma RenamedElsewhere(v: Volume, w: Volume, from: Path, to: Path, now: nat, p: Path)
    requires CleanlyRenamed(v, w, from, to, now) && p in v.active && p != to && !InSubtree(from, p)
    ensures p in w.active && w.active[p] == v.active[p] && w.blocks == v.blocks
  {
    assert p in RenameBase(v, to).active;
  }

  /** A rename keeps the handles in order exactly when none streams into the moved subtree and those
      that stream into the replaced file find at least as many bytes in the moved one. */
  lemma HandlesAfterRename(cfg: Config, v: Volume, w: Volume, from: Path, to: Path, now: nat,
                           handles: map<nat, OpenFileHandle>)
    requires CleanlyRenamed(v, w, from, to, now) && FilesMoved(v, w, from, to) && AllHandlesOk(cfg, v, handles)
    ensures AllHandlesOk(cfg, w, handles)
      <==> NoneStreamed(handles, from)
           && forall f :: f in handles && handles[f].path == to ==> HandleOk(cfg, w, handles[f])
  {
    hide CleanlyRenamed;
    forall f | f in handles && handles[f].committedSize > 0 ensures handles[f].path in v.active {
      assert HandleOk(cfg, v, handles[f]);
    }
    forall f | f in handles && handles[f].committedSize > 0
               && handles[f].path != to && !InSubtree(from, handles[f].path)
      ensures HandleOk(cfg, w, handles[f])
    {
      RenamedElsewhere(v, w, from, to, now, handles[f].path);
      HandleStays(cfg, v, w, handles[f]);
    }
    forall f | f in handles && handles[f].committedSize > 0 && InSubtree(from, handles[f].path)
      ensures !HandleOk(cfg, w, handles[f])
    {
    }
  }

  /** The write-back of a handle left on the old path is refused; one left on a replaced file goes to
      the file that has moved there. */
  lemma LeftBehind(cfg: Config, v: Volume, w: Volume, from: Path, to: Path, h: OpenFileHandle)
    requires FilesMoved(v, w, from, to) && h.path in v.active
    ensures InSubtree(from, h.path) ==> HandOverRefusal(cfg, w, h) == Some(NotFound)
    ensures h.path == to ==> h.path in w.active && w.active[h.path].id == v.active[from].id
  {
  }

  /** What has been written to the path after a rename went into the file that lay there, or into the moved
      file at the target. */
  ghost predicate WrittenInto(v: Volume, x: Volume, from: Path, to: Path, path: Path) {
    && path in v.active && from in v.active && path in x.active
    && x.active[path].id == v.active[if path == to then from else path].id
  }

  lemma RewrittenInto(cfg: Config, saved: map<nat, Bytes>, v: Volume, w: Volume, x: Volume, from: Path, to: Path,
                      path: Path)
    requires FilesMoved(v, w, from, to) && path in v.active && Rewritten(cfg, saved, w, x, path)
    ensures WrittenInto(v, x, from, to, path)
  {
    hide Updated;
    if path != to { assert SameFileAt(v, w, path); }
  }

  function FileInode(id: nat, path: Path, bytes: Bytes): Inode {
    Inode(id, File, path, |bytes|, Stamps(0, 0, 0), DEFAULT_METADATA)
  }

  /** Renaming `/a` to `/b` under a writer: all handles stay in order, and what was written is lost. */
  lemma WriterOfRenamed(cfg: Config, now: nat, written: Bytes)
    requires Unlimited(cfg)
    ensures var n := FileInode(1, "/a", []);
            var v := Volume(map["/a" := n], map[], map[], map[1 := []], 1, [], {1});
            var w := v.(active := map["/b" := At(n, "/b", now)]);
            var h := OpenFileHandle(2, "/a", written, 0, true);
            && CleanlyRenamed(v, w, "/a", "/b", now)
            && AllHandlesOk(cfg, v, map[1 := h]) && AllHandlesOk(cfg, w, map[1 := h])
            && HandOverRefusal(cfg, v, h).None? && HandOverRefusal(cfg, w, h) == Some(NotFound)
  {
    var c: Catalog := map["/a" := FileInode(1, "/a", [])];
    assert Moved("/a", "/b", "/a") == "/b";
    assert SubtreeMoves(c, "/a", "/b") == map["/a" := "/b"];
    assert "/b"[1] != "/a"[1] && !InSubtree("/a", "/b");
  }

  /** Renaming `/a` over a file `/b` that a writer has open: all handles stay in order, even one that
      has streamed, and what was written goes into the file that was `/a`. */
  lemma WriterOfReplaced(cfg: Config, now: nat, moved: Bytes, replaced: Bytes, written: Bytes, committed: nat)
    requires Unlimited(cfg) && committed <= |moved| && committed <= |replaced|
    ensures var a, b := FileInode(1, "/a", moved), FileInode(2, "/b", replaced);
            var v := Volume(map["/a" := a, "/b" := b], map[], map[], map[1 := moved, 2 := replaced], 2, [], {1, 2});
            var w := Trashed(v, "/b").(active := map["/b" := At(a, "/b", now)]);
            var h := OpenFileHandle(3, "/b", written, committed, true);
            && CleanlyRenamed(v, w, "/a", "/b", now)
            && AllHandlesOk(cfg, v, map[1 := h]) && AllHandlesOk(cfg, w, map[1 := h])
            && !SameFileAt(v, w, "/b") && ReadFile(cfg, w, "/b") == Ok(moved)
            && HandOverRefusal(cfg, w, h).None?
            && ViewOf(cfg, w, h).Handed() == if committed == 0 then written else moved + written
  {
    var c: Catalog := map["/a" := FileInode(1, "/a", moved)];
    assert map["/a" := FileInode(1, "/a", moved), "/b" := FileInode(2, "/b", replaced)] - {"/b"} == c;
    assert Moved("/a", "/b", "/a") == "/b";
    assert SubtreeMoves(c, "/a", "/b") == map["/a" := "/b"];
    assert "/b"[1] != "/a"[1] && !InSubtree("/a", "/b");
  }

  /** The node caches the given size and data, and is otherwise the same. */
  predicate Touched(a: FuseNode, b: FuseNode, size: Option<nat>, data: Option<Bytes>) {
    && SameNode(a, b)
    && b.data == GetOr(data, a.data)
    && (a.inode.Some? ==> b.inode.value.size == GetOr(size, a.inode.value.size)
                          && b.inode.value.meta == a.inode.value.meta)
  }

  /** What the mount caches of an inode right after building its maps: the raw block. */
  ghost predicate RawCached(c: Catalog, blocks: map<nat, Bytes>, nodes: map<nat, FuseNode>) {
    forall p :: p in c ==> CachedAt(c[p], blocks, nodes)
  }

  predicate CachedAt(n: Inode, blocks: map<nat, Bytes>, nodes: map<nat, FuseNode>) {
    n.id + 1 in nodes && nodes[n.id + 1].inode == Some(n) && nodes[n.id + 1].data == RawOr(blocks, n.id)
  }

  lemma RawCachedPush(c: Catalog, done: set<Path>, blocks: map<nat, Bytes>, nodes: map<nat, FuseNode>, p: Path)
    requires Indexable(c) && p in c && p !in done && RawCached(Portion(c, done), blocks, nodes)
    ensures RawCached(Portion(c, done + {p}), blocks,
                      nodes[c[p].id + 1 := NodeFor(c[p], RawOr(blocks, c[p].id))])
  {
    hide CachedAt, Indexable, NodeFor, RawOr;
    CachedNow(c[p], blocks, nodes);
    forall q | q in c && q in done
      ensures CachedAt(c[q], blocks, nodes[c[p].id + 1 := NodeFor(c[p], RawOr(blocks, c[p].id))])
    {
      assert CachedAt(Portion(c, done)[q], blocks, nodes);
      OtherId(c, p, q);
      CachedStays(c[q], c[p].id, blocks, nodes, NodeFor(c[p], RawOr(blocks, c[p].id)));
    }
  }

  lemma CachedNow(n: Inode, blocks: map<nat, Bytes>, nodes: map<nat, FuseNode>)
    ensures CachedAt(n, blocks, nodes[n.id + 1 := NodeFor(n, RawOr(blocks, n.id))])
  {
  }

  lemma OtherId(c: Catalog, p: Path, q: Path)
    requires Indexable(c) && p in c && q in c && p != q
    ensures c[p].id != c[q].id
  {
  }

  lemma CachedStays(n: Inode, id: nat, blocks: map<nat, Bytes>, nodes: map<nat, FuseNode>, node: FuseNode)
    requires CachedAt(n, blocks, nodes) && n.id != id
    ensures CachedAt(n, blocks, nodes[id + 1 := node])
  {
  }

  lemma NothingCached(blocks: map<nat, Bytes>, nodes: map<nat, FuseNode>)
    ensures RawCached(map[], blocks, nodes)
  {
  }

  /** The raw block is the content of a plain file, of a compressed one exactly when decompressing
      leaves it as it is, and never that of a file that is only encrypted. */
  lemma RawIsContent(cfg: Config, blocks: map<nat, Bytes>, n: Inode)
    requires Lawful(cfg.codec) && Stored(cfg, blocks, n) && n.kind == File
    ensures Plain(n) ==> Content(cfg, blocks, n) == Some(RawOr(blocks, n.id))
    ensures n.meta.encrypted && !n.meta.compressed ==> Content(cfg, blocks, n) != Some(RawOr(blocks, n.id))
    ensures n.meta.compressed && !n.meta.encrypted ==>
              (Content(cfg, blocks, n) == Some(RawOr(blocks, n.id))
               <==> cfg.codec.decompress(RawOr(blocks, n.id)) == Some(RawOr(blocks, n.id)))
  {
    var raw := RawOr(blocks, n.id);
    assert cfg.codec.decrypt(raw).Some? ==> |raw| == |cfg.codec.decrypt(raw).value| + 28;
  }

  /** Only the node `ino` has changed, and only in what it caches. */
  ghost predicate NodeRefreshed(a: map<nat, FuseNode>, b: map<nat, FuseNode>, ino: nat, size: Option<nat>,
                                data: Option<Bytes>) {
    && a.Keys == b.Keys
    && (forall k :: k in a && k != ino ==> a[k] == b[k])
    && (ino in a ==> Touched(a[ino], b[ino], size, data))
  }

  /** The nodes have the same inodes with the same sizes; cached data and times may differ. */
  ghost predicate SameInodes(a: map<nat, FuseNode>, b: map<nat, FuseNode>) {
    && a.Keys == b.Keys
    && forall k :: k in a ==>
         SameNode(a[k], b[k]) && (a[k].inode.Some? ==> a[k].inode.value.size == b[k].inode.value.size)
  }

  lemma SameInode(a: map<nat, FuseNode>, b: map<nat, FuseNode>, ino: nat)
    requires SameInodes(a, b)
    ensures NodeHasInode(a, ino) <==> NodeHasInode(b, ino)
  {
  }

  lemma NothingRefreshed(nodes: map<nat, FuseNode>)
    ensures SameInodes(nodes, nodes)
  {
  }

  lemma RefreshedInodes(a: map<nat, FuseNode>, b: map<nat, FuseNode>, ino: nat, data: Option<Bytes>)
    requires NodeRefreshed(a, b, ino, None, data)
    ensures SameInodes(a, b)
  {
  }

  lemma SameInodesTransitive(a: map<nat, FuseNode>, b: map<nat, FuseNode>, c: map<nat, FuseNode>)
    requires SameInodes(a, b) && SameInodes(b, c)
    ensures SameInodes(a, c)
  {
  }

  lemma KeyedAt(c: Catalog, p: Path)
    requires Indexable(c) && p in c
    ensures c[p].path == p
  {
  }
}
