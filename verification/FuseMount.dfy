/** The read-write mount: open-file handles, index maps and virtual nodes over the service. */
module FuseMount {
  import opened ByteStrings
  import opened Wrappers
  import opened Sorting
  import opened Paths
  import opened Storage
  import opened Volumes
  import opened Changes
  import opened Renaming
  import opened Snapshots
  import opened Services
  import opened WriteBack
  import opened FuseIndex
  import opened FuseHandles
  import opened TreeShape
  import opened VirtualNodes
  import opened Directories
  import opened PlainFiles

  class CoreFsFuseMountRw {
    const service: CoreFsService
    /** The streaming threshold in force. */
    const threshold: nat
    var nodes: map<nat, FuseNode>
    var inoByPath: map<Path, nat>
    var children: map<Path, set<string>>
    var nextHandle: nat
    var openFiles: map<nat, OpenFileHandle>
    var dirty: bool
    var virtInoMap: map<VirtKey, nat>
    var virtDirs: map<nat, VirtNode>
    var virtFiles: map<nat, VirtNode>
    var nextVirtIno: nat

    constructor (service: CoreFsService, threshold: nat)
      requires service.Valid() && Indexable(service.active)
      ensures this.service == service && this.threshold == threshold
      ensures IndexOk() && HandlesOk() && openFiles == map[] && nextHandle == 1
      ensures TreeShaped(service.active) ==> TreeOk()
      ensures RawCached(service.active, service.blocks, nodes)
      ensures Faithful(service.cfg, service.State()) ==>
                Running(Files(DiskOf(service.cfg, service.State()), map[]), {}) && InStep()
      ensures VirtualOk() && virtInoMap == map[] && nextVirtIno == VIRT_INO_BASE
    {
      hide Indexable, Indexes, Sound, Lawful, WellInterned, AllHandlesOk, TreeShaped, RawCached, Faithful, Refines,
        Sized, OneEach, DiskOf;
      virtInoMap, virtDirs, virtFiles, nextVirtIno := map[], map[], map[], VIRT_INO_BASE;
      this.service, this.threshold := service, threshold;
      nodes, inoByPath, children := map[], map[], map[];
      nextHandle, openFiles, dirty := 1, map[], false;
      new;
      NothingInterned();
      NoHandles(service.cfg, service.State());
      RebuildIndexes();
      if Faithful(service.cfg, service.State()) {
        FreshRefines(service.cfg, service.State());
        FreshSized(service.cfg, service.State(), Maps());
      }
    }

    /** Building the maps anew from the catalog. */
    method RebuildIndexes()
      requires service.Valid() && Indexable(service.active)
      modifies this`nodes, this`inoByPath, this`children
      ensures IndexOk() && RawCached(service.active, service.blocks, nodes)
    {
      hide Indexable, Indexes, Sound, Lawful, Elements, ParentPath, BaseName, AddChild, AddDirectory, Portion,
        RawCached;
      var paths := service.ListKeys(service.active);
      var nodes: map<nat, FuseNode> := map[ROOT_INO := ROOT_NODE];
      var inoByPath: map<Path, nat> := map["/" := ROOT_INO];
      var children: map<Path, set<string>> := map["/" := {}];
      RootIndexes();
      PortionEnds(service.active);
      NoElements();
      assert paths[..0] == [];
      NothingCached(service.blocks, nodes);
      for i := 0 to |paths|
        invariant RawCached(Portion(service.active, Elements(paths[..i])), service.blocks, nodes)
        invariant Indexes(Portion(service.active, Elements(paths[..i])), Index(nodes, inoByPath, children))
      {
        var n := service.active[paths[i]];
        var data := RawOr(service.blocks, n.id);
        FreshElement(paths, i);
        ElementsPush(paths, i);
        KeyedAt(service.active, paths[i]);
        RebuildStep(service.active, Elements(paths[..i]), Index(nodes, inoByPath, children), paths[i], data);
        RawCachedPush(service.active, Elements(paths[..i]), service.blocks, nodes, paths[i]);
        var par := ParentPath(n.path);
        children := AddChild(children, par, BaseName(n.path));
        children := AddDirectory(children, n.path);
        inoByPath := inoByPath[n.path := n.id + 1];
        nodes := nodes[n.id + 1 := FuseNode(n.path, par, Some(n), data)];
      }
      assert paths[..|paths|] == paths;
      this.nodes, this.inoByPath, this.children := nodes, inoByPath, children;
    }

    ghost predicate HandlesOk()
      reads this`openFiles, service
    {
      service.Valid() && AllHandlesOk(service.cfg, service.State(), openFiles)
    }

    lemma HandlesInOrder()
      requires HandlesOk()
      ensures AllHandlesOk(service.cfg, service.State(), openFiles)
    {
    }

    ghost predicate IndexOk()
      reads this`nodes, this`inoByPath, this`children, service
    {
      && service.Valid() && Indexable(service.active)
      && Indexes(service.active, Index(nodes, inoByPath, children))
    }

    function View(fh: nat): Cached
      requires fh in openFiles
      reads this`openFiles, service
    {
      ViewOf(service.cfg, service.State(), openFiles[fh])
    }

    /** Refresh what a node caches about its inode's content. */
    method TouchNode(ino: nat, size: Option<nat>, data: Option<Bytes>)
      modifies this`nodes
      ensures old(IndexOk()) ==> IndexOk()
      ensures nodes.Keys == old(nodes).Keys
      ensures forall k :: k in nodes && k != ino ==> nodes[k] == old(nodes)[k]
      ensures ino in nodes ==> Touched(old(nodes)[ino], nodes[ino], size, data)
    {
      hide Sound, Lawful, Indexable, NodesMatch, PathsMatch, ChildrenMatch;
      if ino in nodes {
        var node := nodes[ino];
        var now: nat := *;
        if node.inode.Some? && size.Some? {
          var inode := node.inode.value;
          node := node.(inode := Some(inode.(size := size.value, stamps := inode.stamps.(modified := now))));
        }
        if data.Some? { node := node.(data := data.value); }
        if Indexes(service.active, Index(nodes, inoByPath, children)) {
          NodeTouched(service.active, nodes, ino, node);
          NodesReplaced(service.active, Index(nodes, inoByPath, children), nodes[ino := node]);
        }
        nodes := nodes[ino := node];
      }
    }

    method OpenFile(ino: nat, truncate: bool) returns (r: Result<nat>)
      requires HandlesOk()
      modifies this`openFiles, this`nextHandle, this`nodes, this`dirty
      ensures HandlesOk() && (old(IndexOk()) ==> IndexOk()) && nodes.Keys == old(nodes).Keys
      ensures r.Err? <==> ino !in old(nodes) || old(nodes)[ino].Kind() != File
      ensures r.Err? ==>
                r.error == (if ino !in old(nodes) then NotFound else InvalidInput) && openFiles == old(openFiles)
      ensures r.Ok? ==> r.value == old(nextHandle) && nextHandle == Min(old(nextHandle) + 1, U64_MAX)
      ensures r.Ok? ==>
                var node := old(nodes)[ino];
                var known := node.inode.Some? && node.inode.value.size > 0;
                var start := if truncate || !known then [] else ServedBytes(service.cfg, service.State(), node.path);
                && openFiles == old(openFiles)[r.value := OpenFileHandle(ino, node.path, start, 0, truncate)]
                && View(r.value).Logical() == start && View(r.value).InStep()
      ensures dirty == (old(dirty) || (r.Ok? && truncate))
      ensures forall k :: k in nodes && (k != ino || r.Err? || !truncate) ==> nodes[k] == old(nodes)[k]
      ensures r.Ok? && truncate ==> Touched(old(nodes)[ino], nodes[ino], Some(0), Some([]))
    {
      hide Sound, Lawful, Indexable, Indexes, AllHandlesOk, SameNode;
      if ino !in nodes { return Err(NotFound); }
      var node := nodes[ino];
      if node.Kind() != File { return Err(InvalidInput); }
      var data := if node.inode.Some? && node.inode.value.size > 0
                  then ServedBytes(service.cfg, service.State(), node.path) else [];
      var handle := OpenFileHandle(ino, node.path, data, 0, false);
      if truncate {
        handle := handle.(data := [], dirty := true);
        TouchNode(ino, Some(0), Some([]));
        dirty := true;
      }
      var fh := nextHandle;
      nextHandle := if nextHandle < U64_MAX then nextHandle + 1 else U64_MAX;
      NewHandle(service.cfg, service.State(), openFiles, fh, handle);
      openFiles := openFiles[fh := handle];
      r := Ok(fh);
    }

    /** Reading through a handle returns the requested slice of the file as its writer sees it;
        without a handle, of what the node has cached. */
    function ReadFromHandle(ino: nat, fh: nat, offset: int, size: nat): (r: Result<Bytes>)
      requires HandlesOk()
      reads this`nodes, this`openFiles, service
      ensures fh !in openFiles && ino in nodes ==> r == Ok(Slice(nodes[ino].data, FromOffset(offset), size))
      ensures fh !in openFiles && ino !in nodes ==> r == Err(NotFound)
      ensures fh in openFiles && openFiles[fh].ino != ino ==> r == Err(Error.State)
      ensures fh in openFiles && openFiles[fh].ino == ino ==>
                View(fh).WellFormed() && r == Ok(Slice(View(fh).Logical(), FromOffset(offset), size))
    {
      var start := FromOffset(offset);
      if fh !in openFiles then
        if ino !in nodes then Err(NotFound)
        else
          var data := nodes[ino].data;
          var end := Min(start + size, |data|);
          SliceIs(data, start, size);
          Ok(if start <= end then data[start..end] else [])
      else if openFiles[fh].ino != ino then Err(Error.State)
      else
        AllHandlesOne(service.cfg, service.State(), openFiles, fh);
        assert View(fh).ReadsService(start, size) ==>
                 ReadFile(service.cfg, service.State(), openFiles[fh].path) == Ok(View(fh).content);
        ReadSlices(View(fh), start, size);
        Ok(View(fh).Read(start, size))
    }

    /** Hand the buffer of a handle over to the service. */
    method HandOver(h: OpenFileHandle) returns (r: Result<()>)
      requires service.Valid()
      modifies service`active, service`blocks, service`dirtyInodes
      ensures service.Valid()
      ensures r == Check(HandOverRefusal(service.cfg, old(service.State()), h))
      ensures r.Err? ==> service.State() == old(service.State())
      ensures r.Ok? ==> Rewritten(service.cfg, service.saved, old(service.State()), service.State(), h.path)
      ensures r.Ok? && HandleOk(service.cfg, old(service.State()), h) ==>
                ReadFile(service.cfg, service.State(), h.path)
                == Ok(old(ViewOf(service.cfg, service.State(), h)).Handed())
      ensures Faithful(service.cfg, old(service.State())) ==> Faithful(service.cfg, service.State())
    {
      hide Sound, Lawful, Covers, Tree;
      if h.committedSize == 0 {
        r := service.WriteFile(h.path, h.data);
      } else {
        r := service.ExtendFile(h.path, h.data);
      }
    }

    /** The streaming branch of a write: the buffer is handed over, and the new bytes start another. */
    method StreamOut(h: OpenFileHandle, bytes: Bytes) returns (r: WriteOutcome, placed: OpenFileHandle)
      requires service.Valid() && HandleOk(service.cfg, service.State(), h)
      modifies service`active, service`blocks, service`dirtyInodes
      ensures service.Valid() && !r.Panicked?
      ensures r.Failed? ==> r.error == Error.State && service.State() == old(service.State())
      ensures r.Failed? <==> h.data != [] && HandOverRefusal(service.cfg, old(service.State()), h).Some?
      ensures r.Written? ==> r.count == |bytes|
      ensures r.Written? ==>
                placed == h.(data := bytes, committedSize := h.committedSize + |h.data|)
                && HandleOk(service.cfg, service.State(), placed)
      ensures r.Written? && h.data != [] ==>
                ServedBytes(service.cfg, service.State(), h.path)
                == old(ViewOf(service.cfg, service.State(), h)).Handed()
      ensures r.Written? && h.data == [] ==> service.State() == old(service.State())
      ensures SameSkeleton(old(service.active), service.active)
      ensures forall q :: q != h.path ==> SameAt(service.cfg, old(service.State()), service.State(), q)
      ensures Faithful(service.cfg, old(service.State())) ==> Faithful(service.cfg, service.State())
    {
      hide Sound, Lawful, Covers, Tree, Faithful, SameAt, Updated, ReadFile, Content, ResizeRefusal, ExtendRefusal;
      placed := h;
      Unchanged(service.cfg, service.State());
      if h.data != [] {
        var flushed := HandOver(h);
        if flushed.Err? { return Failed(Error.State), placed; }
        RewrittenElsewhere(service.cfg, service.saved, old(service.State()), service.State(), h.path);
      }
      placed := placed.(committedSize := h.committedSize + |h.data|, data := bytes);
      r := Written(|bytes|);
    }

    /** The handle after a write: into the buffer, or behind the buffer once that is handed over. */
    method Place(h: OpenFileHandle, start: nat, bytes: Bytes) returns (r: WriteOutcome, placed: OpenFileHandle)
      requires service.Valid() && HandleOk(service.cfg, service.State(), h)
      modifies service`active, service`blocks, service`dirtyInodes
      ensures service.Valid()
      ensures r == PlaceAnswer(service.cfg, old(service.State()), h, threshold, start, bytes)
      ensures !r.Written? ==> service.State() == old(service.State())
      ensures r.Written? ==>
                var view := old(ViewOf(service.cfg, service.State(), h)).Write(threshold, start, bytes);
                && ViewOf(service.cfg, service.State(), placed) == view
                && placed == h.(data := view.data, committedSize := view.committed, dirty := true)
                && HandleOk(service.cfg, service.State(), placed)
      ensures SameSkeleton(old(service.active), service.active)
      ensures forall q :: q != h.path ==> SameAt(service.cfg, old(service.State()), service.State(), q)
      ensures Faithful(service.cfg, old(service.State())) ==> Faithful(service.cfg, service.State())
    {
      hide Sound, Lawful, Covers, Tree, Faithful, SameAt, ReadFile, ServedBytes, SameSkeleton, HandOverRefusal;
      placed := h;
      var end := start + |bytes|;
      var logicalEnd := h.committedSize + |h.data|;
      if start == logicalEnd && |h.data| + |bytes| > threshold && start >= h.committedSize {
        r, placed := StreamOut(h, bytes);
        if r.Failed? { return; }
      } else {
        Unchanged(service.cfg, service.State());
        var needed := SatSub(end, h.committedSize);
        var data := Resize(h.data, Max(|h.data|, needed));
        var from, upTo := SatSub(start, h.committedSize), SatSub(end, h.committedSize);
        if upTo - from != |bytes| { return Panicked, placed; }
        placed := placed.(data := data[..from] + bytes + data[upTo..]);
        r := Written(|bytes|);
      }
      placed := placed.(dirty := true);
    }

    /** The session of a change begins: from here on there is something to persist. */
    method EnsureMutationSession()
      modifies this`dirty
      ensures dirty
    {
      dirty := true;
    }

    /** One write changes the handle's view as the cache says, whether it goes to the buffer or
        pushes the buffer into the service first: the file as its writer sees it is spliced. Every
        other handle's file is left alone and stays in step with the service as it was. */
    method WriteToHandle(ino: nat, fh: nat, offset: int, bytes: Bytes) returns (r: WriteOutcome)
      requires HandlesOk() && Sole(openFiles, fh)
      modifies this`openFiles, this`nodes, this`dirty, service`active, service`blocks, service`dirtyInodes
      ensures HandlesOk() && (old(IndexOk()) ==> IndexOk())
      ensures r == old(WriteAnswer(service.cfg, service.State(), openFiles, threshold, ino, fh, FromOffset(offset),
                                   bytes))
      ensures dirty == (old(dirty) || r.Written?
                        || StreamingStarts(old(openFiles), threshold, ino, fh, FromOffset(offset), bytes))
      ensures !r.Written? ==>
                openFiles == old(openFiles) && nodes == old(nodes) && service.State() == old(service.State())
      ensures r.Written? ==>
                && fh in openFiles
                && HandleWritten(service.cfg, old(service.State()), service.State(), old(openFiles), openFiles, fh,
                                 threshold, FromOffset(offset), bytes)
                && NodeRefreshed(old(nodes), nodes, ino, Some(openFiles[fh].committedSize + |openFiles[fh].data|), None)
      ensures Faithful(service.cfg, old(service.State())) ==> Faithful(service.cfg, service.State())
    {
      hide Sound, Lawful, Covers, Tree, Faithful, SameAt, Indexable, Indexes, HandleOk, AllHandlesOk, Sole,
        NodeRefreshed, PlaceAnswer, HandleWritten;
      if fh !in openFiles || openFiles[fh].ino != ino { return Failed(Error.State); }
      var handle := openFiles[fh];
      if handle.committedSize + |handle.data| == FromOffset(offset) && |handle.data| + |bytes| > threshold
         && handle.committedSize == 0
      {
        EnsureMutationSession();
      }
      r := WriteOpen(fh, FromOffset(offset), bytes);
    }

    /** The write itself, on a handle that is known. */
    method WriteOpen(fh: nat, start: nat, bytes: Bytes) returns (r: WriteOutcome)
      requires HandlesOk() && Sole(openFiles, fh) && fh in openFiles
      modifies this`openFiles, this`nodes, this`dirty, service`active, service`blocks, service`dirtyInodes
      ensures HandlesOk() && (old(IndexOk()) ==> IndexOk())
      ensures r == PlaceAnswer(service.cfg, old(service.State()), old(openFiles)[fh], threshold, start, bytes)
      ensures !r.Written? ==>
                openFiles == old(openFiles) && nodes == old(nodes) && service.State() == old(service.State())
      ensures dirty == (old(dirty) || r.Written?)
      ensures r.Written? ==>
                && fh in openFiles
                && HandleWritten(service.cfg, old(service.State()), service.State(), old(openFiles), openFiles, fh,
                                 threshold, start, bytes)
                && NodeRefreshed(old(nodes), nodes, old(openFiles)[fh].ino,
                                 Some(openFiles[fh].committedSize + |openFiles[fh].data|), None)
      ensures Faithful(service.cfg, old(service.State())) ==> Faithful(service.cfg, service.State())
    {
      hide Sound, Lawful, Covers, Tree, Faithful, SameAt, Indexable, Indexes, SameSkeleton, HandleOk, Cached.Write,
        AllHandlesOk, OthersSame, Sole, NodeRefreshed, Cached.WellFormed, Cached.Logical, Cached.Panics,
        Cached.InStep, PlaceAnswer, Splices, ReadFile, ServedBytes, HandleWritten, ViewOf;
      var handle := openFiles[fh];
      ghost var v := service.State();
      AllHandlesOne(service.cfg, v, openFiles, fh);
      r, handle := Place(handle, start, bytes);
      if r.Written? {
        Settle(v, fh, handle, Some(handle.committedSize + |handle.data|), None);
        WrittenHandle(service.cfg, v, service.State(), old(openFiles), handle, fh, threshold, start, bytes);
      }
    }

    /** Put the handle back after its file has changed, and refresh its node. */
    method Settle(ghost v: Volume, fh: nat, handle: OpenFileHandle, size: Option<nat>, data: Option<Bytes>)
      requires service.Valid() && AllHandlesOk(service.cfg, v, openFiles) && Sole(openFiles, fh) && fh in openFiles
      requires handle.path == openFiles[fh].path && HandleOk(service.cfg, service.State(), handle)
      requires SameSkeleton(v.active, service.active)
      requires forall q :: q != handle.path ==> SameAt(service.cfg, v, service.State(), q)
      modifies this`openFiles, this`nodes, this`dirty
      ensures HandlesOk() && openFiles == old(openFiles)[fh := handle]
      ensures OthersSame(service.cfg, v, service.State(), old(openFiles), openFiles, fh)
      ensures Indexable(v.active) && Indexes(v.active, old(Index(nodes, inoByPath, children))) ==> IndexOk()
      ensures dirty && NodeRefreshed(old(nodes), nodes, handle.ino, size, data)
    {
      hide Sound, Lawful, SameAt, Indexable, Indexes, SameSkeleton, HandleOk, AllHandlesOk, OthersSame, Sole;
      if Indexable(v.active) && Indexes(v.active, Index(nodes, inoByPath, children)) {
        SkeletonIndexes(v.active, service.active, Index(nodes, inoByPath, children));
      }
      ServedAlone(service.cfg, v, service.State(), openFiles, handle, fh);
      openFiles := openFiles[fh := handle];
      TouchNode(handle.ino, size, data);
      dirty := true;
    }

    /** Whether the handle's node still has its inode. */
    predicate HasInode(ino: nat)
      reads this`nodes
    {
      NodeHasInode(nodes, ino)
    }

    /** The final write-back of one handle: the service gets the file as its writer sees it exactly
        when the handle was in step. */
    method FlushFileHandle(fh: nat) returns (r: Result<bool>)
      requires HandlesOk() && Sole(openFiles, fh)
      modifies this`openFiles, this`nodes, this`dirty, service`active, service`blocks, service`dirtyInodes
      ensures HandlesOk() && (old(IndexOk()) ==> IndexOk()) && SameInodes(old(nodes), nodes)
      ensures r != Ok(true) ==>
                openFiles == old(openFiles) && nodes == old(nodes) && service.State() == old(service.State())
      ensures r == old(FlushAnswer(service.cfg, service.State(), openFiles, nodes, fh))
      ensures dirty == (old(dirty) || FlushStarts(old(openFiles), old(nodes), fh))
      ensures r == Ok(true) ==>
                var h := old(openFiles)[fh];
                && openFiles == old(openFiles)[fh := h.(dirty := false)]
                && NodeRefreshed(old(nodes), nodes, h.ino, None, Some(if h.committedSize == 0 then h.data else []))
                && HandleFlushed(service.cfg, old(service.State()), service.State(), old(openFiles), openFiles, fh)
      ensures Faithful(service.cfg, old(service.State())) ==> Faithful(service.cfg, service.State())
    {
      if fh !in openFiles || !openFiles[fh].dirty { return Ok(false); }
      hide Sound, Lawful, Covers, Tree, Faithful, SameAt, Indexable, Indexes, SameSkeleton, HandleOk, AllHandlesOk,
        OthersSame, Sole, Flushed, NodeRefreshed, FlushRefusal, SameInodes, HandleFlushed, ReadFile, ServedBytes,
        ViewOf;
      var handle := openFiles[fh];
      ghost var v := service.State();
      AllHandlesOne(service.cfg, v, openFiles, fh);
      if !HasInode(handle.ino) { return Err(Error.State); }
      EnsureMutationSession();
      var stored := StoreRest(handle);
      if stored.Err? { return Err(stored.error); }
      Settle(v, fh, handle.(dirty := false), None, Some(if handle.committedSize == 0 then handle.data else []));
      FlushedHandle(service.cfg, v, service.State(), old(openFiles), fh);
      RefreshedInodes(old(nodes), nodes, handle.ino, Some(if handle.committedSize == 0 then handle.data else []));
      r := Ok(true);
    }

    /** The service's share of a flush; a streaming handle with an empty buffer needs none. */
    method StoreRest(h: OpenFileHandle) returns (r: Result<()>)
      requires service.Valid() && HandleOk(service.cfg, service.State(), h)
      modifies service`active, service`blocks, service`dirtyInodes
      ensures service.Valid()
      ensures r == Check(FlushRefusal(service.cfg, old(service.State()), h))
      ensures r.Err? ==> service.State() == old(service.State())
      ensures r.Ok? ==> Flushed(service.cfg, old(service.State()), service.State(), h)
      ensures r.Ok? ==> HandleOk(service.cfg, service.State(), h.(dirty := false))
      ensures SameSkeleton(old(service.active), service.active)
      ensures forall q :: q != h.path ==> SameAt(service.cfg, old(service.State()), service.State(), q)
      ensures Faithful(service.cfg, old(service.State())) ==> Faithful(service.cfg, service.State())
    {
      hide Sound, Lawful, Covers, Tree, Faithful, SameAt, HandOverRefusal;
      Unchanged(service.cfg, service.State());
      if h.committedSize == 0 || h.data != [] {
        r := HandOver(h);
        if r.Ok? {
          RewrittenElsewhere(service.cfg, service.saved, old(service.State()), service.State(), h.path);
        }
      } else {
        assert ViewOf(service.cfg, service.State(), h).Handed() == ViewOf(service.cfg, service.State(), h).content;
        r := Ok(());
      }
    }

    /** Writing back all dirty handles, in whatever order the handle table yields them, until one
        cannot be written back. Every handle written back that was in step has left its file in the
        service as its writer saw it. */
    method FlushDirtyOpenFiles() returns (r: Result<()>, ghost done: set<nat>, ghost stuck: Option<nat>)
      requires HandlesOk() && DirtyApart(openFiles)
      modifies this`openFiles, this`nodes, this`dirty, service`active, service`blocks, service`dirtyInodes
      ensures HandlesOk() && (old(IndexOk()) ==> IndexOk()) && SameInodes(old(nodes), nodes)
      ensures AllFlushed(service.cfg, old(service.State()), service.State(), old(openFiles), openFiles, done)
      ensures r.Ok? <==> stuck.None?
      ensures stuck.None? ==> done == DirtyHandles(old(openFiles))
      ensures stuck.Some? ==>
                && stuck.value in DirtyHandles(old(openFiles)) - done
                && r.Err?
                && FlushAnswer(service.cfg, service.State(), openFiles, nodes, stuck.value) == Err(r.error)
      ensures dirty == (old(dirty) || done != {}
                        || (stuck.Some? && FlushStarts(old(openFiles), old(nodes), stuck.value)))
      ensures forall f :: f in done ==>
                f in old(openFiles) && FlushShown(service.cfg, old(service.State()), service.State(), old(openFiles)[f])
      ensures Faithful(service.cfg, old(service.State())) ==> Faithful(service.cfg, service.State())
    {
      hide Sound, Lawful, Covers, Tree, Faithful, SameAt, Indexable, Indexes, HandleOk, AllHandlesOk, Sole, Flushed,
        AllFlushed, DirtyApart, NodeRefreshed, DirtyHandles, CoreFsService.State, CoreFsService.Valid,
        CoreFsFuseMountRw.IndexOk, CoreFsFuseMountRw.HandlesOk, SameInodes, FlushShown;
      ghost var v, before, indexed := service.State(), openFiles, IndexOk();
      assert AllHandlesOk(service.cfg, v, before) by { HandlesInOrder(); }
      var handles := DirtyHandles(openFiles);
      var todo := handles;
      r, done, stuck := Ok(()), {}, None;
      NothingFlushed(service.cfg, v, before);
      NothingRefreshed(nodes);
      while todo != {}
        invariant todo == handles - done && done <= handles && HandlesOk() && (indexed ==> IndexOk())
        invariant AllFlushed(service.cfg, v, service.State(), before, openFiles, done)
        invariant SameInodes(old(nodes), nodes) && r.Ok? && stuck.None?
        invariant dirty == (old(dirty) || done != {})
        invariant Faithful(service.cfg, v) ==> Faithful(service.cfg, service.State())
        decreases todo
      {
        var fh :| fh in todo;
        DirtyOpen(before, fh);
        r := FlushNext(fh, v, before, old(nodes), done);
        if r.Err? {
          stuck := Some(fh);
          break;
        }
        done := done + {fh};
        todo := todo - {fh};
      }
      DoneShown(service.cfg, v, service.State(), before, openFiles, done);
    }

    /** A turn of that loop. */
    method FlushNext(fh: nat, ghost v: Volume, ghost before: map<nat, OpenFileHandle>,
                     ghost first: map<nat, FuseNode>, ghost done: set<nat>)
      returns (r: Result<()>)
      requires HandlesOk() && DirtyApart(before) && fh in DirtyHandles(before) && fh !in done
      requires AllFlushed(service.cfg, v, service.State(), before, openFiles, done) && SameInodes(first, nodes)
      modifies this`openFiles, this`nodes, this`dirty, service`active, service`blocks, service`dirtyInodes
      ensures HandlesOk() && (old(IndexOk()) ==> IndexOk()) && SameInodes(first, nodes)
      ensures AllFlushed(service.cfg, v, service.State(), before, openFiles, if r.Ok? then done + {fh} else done)
      ensures dirty == (old(dirty) || NodeHasInode(first, before[fh].ino))
      ensures r.Ok? ==> NodeHasInode(first, before[fh].ino)
      ensures r.Err? ==> FlushAnswer(service.cfg, service.State(), openFiles, nodes, fh) == Err(r.error)
      ensures Faithful(service.cfg, old(service.State())) ==> Faithful(service.cfg, service.State())
    {
      hide Sound, Lawful, Covers, Tree, Faithful, SameAt, Indexable, Indexes, HandleOk, AllHandlesOk, Sole, Flushed,
        AllFlushed, DirtyApart, NodeRefreshed, DirtyHandles, SameInodes, FlushRefusal, OthersSame, FlushShown;
      assert fh in before by { DirtyOpen(before, fh); }
      ghost var w, current := service.State(), openFiles;
      NextFlush(service.cfg, v, w, before, openFiles, done, fh);
      SameInode(first, nodes, before[fh].ino);
      var flushed := FlushFileHandle(fh);
      SameInodesTransitive(first, old(nodes), nodes);
      if flushed.Err? { return Err(flushed.error); }
      assert flushed.value;
      FlushedOne(service.cfg, v, w, service.State(), before, current, done, fh);
      r := Ok(());
    }

    /** Closing a handle writes it back first; a handle that cannot be written back stays open. */
    method ReleaseFileHandle(fh: nat) returns (r: Result<()>)
      requires HandlesOk() && Sole(openFiles, fh)
      modifies this`openFiles, this`nodes, this`dirty, service`active, service`blocks, service`dirtyInodes
      ensures HandlesOk() && (old(IndexOk()) ==> IndexOk()) && SameInodes(old(nodes), nodes)
      ensures r.Err? ==> openFiles == old(openFiles) && nodes == old(nodes) && service.State() == old(service.State())
      ensures r.Ok? ==> openFiles == old(openFiles) - {fh}
      ensures dirty == (old(dirty) || FlushStarts(old(openFiles), old(nodes), fh))
      ensures r == match old(FlushAnswer(service.cfg, service.State(), openFiles, nodes, fh))
                   case Ok(_) => Ok(())
                   case Err(e) => Err(e)
      ensures r.Ok? && fh in old(openFiles) && old(openFiles)[fh].dirty ==>
                && HandleFlushed(service.cfg, old(service.State()), service.State(), old(openFiles),
                                 openFiles[fh := old(openFiles)[fh].(dirty := false)], fh)
      ensures fh !in old(openFiles) || !old(openFiles)[fh].dirty ==>
                r.Ok? && nodes == old(nodes) && service.State() == old(service.State())
      ensures Faithful(service.cfg, old(service.State())) ==> Faithful(service.cfg, service.State())
    {
      hide Sound, Lawful, Covers, Tree, Faithful, SameAt, Indexable, Indexes, HandleOk, AllHandlesOk, Sole, Flushed,
        FlushRefusal, OthersSame, SameInodes, NodeRefreshed, HandleFlushed;
      NothingRefreshed(nodes);
      var flushed := FlushFileHandle(fh);
      if flushed.Err? { return Err(flushed.error); }
      assert flushed.value <==> fh in old(openFiles) && old(openFiles)[fh].dirty;
      FewerHandles(service.cfg, service.State(), openFiles, fh);
      assert flushed.value ==> (openFiles - {fh})[fh := old(openFiles)[fh].(dirty := false)] == openFiles;
      openFiles := openFiles - {fh};
      r := Ok(());
    }

    // ----- runs -----

    /** The mount is in the middle of a run: handles, index and nodes are in order, no file is open twice,
        and apart from the files in `lost` all files are those of the plain file system `s`. */
    ghost predicate Running(s: Files, lost: set<Path>)
      reads this`nodes, this`inoByPath, this`children, this`openFiles, service
    {
      && HandlesOk() && IndexOk() && OneEach(openFiles)
      && Sized(service.cfg, service.State(), nodes, openFiles)
      && Refines(service.cfg, service.State(), openFiles, s, lost)
    }

    ghost predicate InStep()
      reads this`openFiles, service
    {
      AllInStep(service.cfg, service.State(), openFiles)
    }

    /** The request leaves the bounds of a run: it opens a file that is open, takes a handle number that
        is in use, or writes in front of what a handle has handed over. */
    predicate OutOfBounds(request: FileRequest)
      reads this`nodes, this`openFiles, this`nextHandle
    {
      match request
      case Open(ino, _) =>
        nextHandle in openFiles
        || (ino in nodes && exists f :: f in openFiles && openFiles[f].path == nodes[ino].path)
      case Write(ino, fh, offset, bytes) =>
        fh in openFiles && openFiles[fh].ino == ino && FromOffset(offset) < openFiles[fh].committedSize && bytes != []
      case _ => false
    }

    ghost function Here(): Scene
      reads this`nodes, this`openFiles, service
    {
      Scene(service.State(), openFiles, nodes)
    }

    /** The request is refused as things stand. */
    ghost predicate Refusing(request: FileRequest)
      reads this`nodes, this`openFiles, service
    {
      RefusedAt(service.cfg, threshold, Here(), request)
    }

    method ServeOpen(ino: nat, truncate: bool, ghost s: Files, ghost lost: set<Path>) returns (ghost step: Step)
      requires Running(s, lost) && !OutOfBounds(Open(ino, truncate))
      modifies this`openFiles, this`nextHandle, this`nodes, this`dirty
      ensures Running(After(s, step), lost) && SameShape(old(nodes), nodes)
      ensures Answers(old(nodes), Open(ino, truncate), step)
      ensures Brings(service.cfg, threshold, old(Here()), step, Here())
      ensures step == Refused <==> old(Refusing(Open(ino, truncate)))
    {
      hide Sound, Lawful, Covers, Indexable, Indexes, AllHandlesOk, Refines, Sized, OneEach, SameNode, ServedBytes,
        Faithful, SavedBytes, Brings;
      ghost var v, before, scene := service.State(), openFiles, Here();
      SameShapeSelf(nodes);
      if ino in nodes { NodeKnown(service.active, Maps(), ino); }
      var r := OpenFile(ino, truncate);
      if r.Err? {
        assert nodes == old(nodes);
        step := Refused;
        RefusedBrings(service.cfg, threshold, scene);
        return;
      }
      step := Opened(r.value, old(nodes)[ino].path, truncate);
      ghost var h := openFiles[r.value];
      OpenBrings(service.cfg, threshold, scene, Here(), r.value, h, truncate);
      OpenedFile(service.cfg, v, old(nodes), nodes, before, r.value, h, truncate, s, lost);
    }

    method ServeWrite(ino: nat, fh: nat, offset: int, bytes: Bytes, ghost s: Files, ghost lost: set<Path>)
      returns (ghost step: Step)
      requires Running(s, lost) && !OutOfBounds(Write(ino, fh, offset, bytes))
      modifies this`openFiles, this`nodes, this`dirty, service`active, service`blocks, service`dirtyInodes
      ensures Running(After(s, step),
                      lost + LostBy(service.cfg, old(service.State()), old(openFiles), threshold, step))
      ensures SameShape(old(nodes), nodes) && Answers(old(nodes), Write(ino, fh, offset, bytes), step)
      ensures Brings(service.cfg, threshold, old(Here()), step, Here())
      ensures step == Refused <==> old(Refusing(Write(ino, fh, offset, bytes)))
    {
      hide Sound, Lawful, Covers, Indexable, Indexes, AllHandlesOk, Refines, Sized, OneEach, SameNode, ServedBytes,
        Faithful, After, HandleWritten, NodeRefreshed, LostBy, SameShape, Sole, PlaceAnswer, SavedBytes;
      ghost var v, before := service.State(), openFiles;
      SameShapeSelf(nodes);
      OneEachApart(openFiles);
      IndexPaths(service.active, Maps());
      var r := WriteToHandle(ino, fh, offset, bytes);
      if !r.Written? {
        step := Refused;
        RefusedStep(service.cfg, v, before, threshold, s, lost);
        return;
      }
      step := Wrote(fh, FromOffset(offset), bytes);
      WrittenFile(service.cfg, v, service.State(), old(nodes), nodes, before, openFiles, fh, threshold,
                  FromOffset(offset), bytes, s, lost);
    }

    method ServeFlush(fh: nat, ghost s: Files, ghost lost: set<Path>) returns (ghost step: Step)
      requires Running(s, lost)
      modifies this`openFiles, this`nodes, this`dirty, service`active, service`blocks, service`dirtyInodes
      ensures Running(After(s, step),
                      lost + LostBy(service.cfg, old(service.State()), old(openFiles), threshold, step))
      ensures SameShape(old(nodes), nodes) && Answers(old(nodes), Flush(fh), step)
      ensures Brings(service.cfg, threshold, old(Here()), step, Here())
      ensures step == Refused <==> old(Refusing(Flush(fh)))
    {
      hide Sound, Lawful, Covers, Indexable, Indexes, AllHandlesOk, Refines, Sized, OneEach, SameNode, ServedBytes,
        Faithful, After, HandleFlushed, NodeRefreshed, LostBy, SameShape, Sole, FlushRefusal, DirtyApart, SameInodes,
        Brings;
      ghost var v, before, scene := service.State(), openFiles, Here();
      SameShapeSelf(nodes);
      OneEachApart(openFiles);
      IndexPaths(service.active, Maps());
      var r := FlushFileHandle(fh);
      InodesShape(old(nodes), nodes);
      if r.Err? {
        step := Refused;
        RefusedBrings(service.cfg, threshold, scene);
        RefusedStep(service.cfg, v, before, threshold, s, lost);
      } else {
        step := Saved({fh});
        if r.value {
          FlushBrings(service.cfg, threshold, scene, Here(), fh);
          FlushedFile(service.cfg, v, service.State(), old(nodes), nodes, before, openFiles, fh, threshold, s, lost);
        } else {
          CleanBrings(service.cfg, threshold, scene, Here(), fh);
          CleanFile(service.cfg, v, before, fh, threshold, s, lost);
        }
      }
    }

    method ServeFlushAll(ghost s: Files, ghost lost: set<Path>)
      returns (r: Result<()>, ghost step: Step)
      requires Running(s, lost)
      modifies this`openFiles, this`nodes, this`dirty, service`active, service`blocks, service`dirtyInodes
      ensures Running(After(s, step),
                      lost + LostBy(service.cfg, old(service.State()), old(openFiles), threshold, step))
      ensures SameShape(old(nodes), nodes) && step.Saved?
      ensures Brings(service.cfg, threshold, old(Here()), step, Here())
      ensures FlushedUpTo(service.cfg, old(Here()), Here(), step.files)
      ensures r.Ok? <==> step.files == DirtyHandles(old(openFiles))
      ensures r.Ok? ==> DirtyHandles(openFiles) == {}
      ensures forall request :: OutOfBounds(request) <==> old(OutOfBounds(request))
    {
      hide Sound, Lawful, Covers, Indexable, Indexes, AllHandlesOk, Refines, Sized, OneEach, SameNode, ServedBytes,
        Faithful, After, NodeRefreshed, LostBy, SameShape, Sole, DirtyApart, SameInodes, DirtyHandles, AllFlushed,
        FlushShown, Brings, FlushedUpTo, FlushAnswer;
      ghost var v, before, scene := service.State(), openFiles, Here();
      OneEachApart(openFiles);
      IndexPaths(service.active, Maps());
      ghost var done: set<nat>;
      ghost var stuck: Option<nat>;
      r, done, stuck := FlushDirtyOpenFiles();
      InodesShape(old(nodes), nodes);
      step := Saved(done);
      FlushAllBrings(service.cfg, threshold, scene, Here(), done, stuck);
      FlushedFiles(service.cfg, v, service.State(), old(nodes), nodes, before, openFiles, done, threshold, s, lost);
      OnlyCleaner(service.cfg, v, service.State(), before, openFiles, done);
      ShapePaths(old(nodes), nodes);
    }

    method ServeRelease(fh: nat, ghost s: Files, ghost lost: set<Path>) returns (ghost step: Step)
      requires Running(s, lost)
      modifies this`openFiles, this`nodes, this`dirty, service`active, service`blocks, service`dirtyInodes
      ensures Running(After(s, step),
                      lost + LostBy(service.cfg, old(service.State()), old(openFiles), threshold, step))
      ensures SameShape(old(nodes), nodes) && Answers(old(nodes), Release(fh), step)
      ensures Brings(service.cfg, threshold, old(Here()), step, Here())
      ensures step == Refused <==> old(Refusing(Release(fh)))
    {
      hide Sound, Lawful, Covers, Indexable, Indexes, AllHandlesOk, Refines, Sized, OneEach, SameNode, ServedBytes,
        Faithful, After, HandleFlushed, NodeRefreshed, LostBy, SameShape, Sole, FlushRefusal, DirtyApart, SameInodes,
        Brings;
      ghost var v, before, scene := service.State(), openFiles, Here();
      OneEachApart(openFiles);
      IndexPaths(service.active, Maps());
      var r := ReleaseFileHandle(fh);
      InodesShape(old(nodes), nodes);
      if r.Err? {
        step := Refused;
        RefusedBrings(service.cfg, threshold, scene);
        RefusedStep(service.cfg, v, before, threshold, s, lost);
      } else {
        step := Closed(fh);
        if fh in before && before[fh].dirty {
          ghost var flushed := openFiles[fh := before[fh].(dirty := false)];
          assert flushed - {fh} == openFiles;
          ReleaseBrings(service.cfg, threshold, scene, Here(), flushed, fh);
          ReleasedFile(service.cfg, v, service.State(), old(nodes), nodes, before, flushed, fh, threshold, s, lost);
        } else {
          CloseBrings(service.cfg, threshold, scene, Here(), fh);
          ClosedFile(service.cfg, v, old(nodes), before, fh, threshold, s, lost);
        }
      }
    }

    /** The call a request stands for. */
    method Dispatch(request: FileRequest, ghost s: Files, ghost lost: set<Path>) returns (ghost step: Step)
      requires Running(s, lost) && !OutOfBounds(request)
      modifies this`openFiles, this`nextHandle, this`nodes, this`dirty
      modifies service`active, service`blocks, service`dirtyInodes
      ensures Running(After(s, step),
                      lost + LostBy(service.cfg, old(service.State()), old(openFiles), threshold, step))
      ensures Follows(service.cfg, threshold, Turn(old(Here()), request, step, Here()))
    {
      hide CoreFsFuseMountRw.Running, After, SameShape, Brings, RefusedAt, FlushedUpTo;
      ghost var before := Here();
      match request {
        case Open(ino, truncate) =>
          step := ServeOpen(ino, truncate, s, lost);
          assert lost + {} == lost;
        case Write(ino, fh, offset, bytes) =>
          step := ServeWrite(ino, fh, offset, bytes, s, lost);
        case Flush(fh) =>
          step := ServeFlush(fh, s, lost);
        case FlushAll =>
          var r;
          r, step := ServeFlushAll(s, lost);
          FlushAllFollows(service.cfg, threshold, Turn(before, request, step, Here()));
        case Release(fh) =>
          step := ServeRelease(fh, s, lost);
      }
    }

    /** One request of a run: the mount does what the plain file system does, and a handle gets out of
        step exactly when its flush hands something over in the middle of streaming. */
    method ServeOne(request: FileRequest, ghost s: Files, ghost lost: set<Path>) returns (ghost step: Step)
      requires Running(s, lost) && !OutOfBounds(request)
      modifies this`openFiles, this`nextHandle, this`nodes, this`dirty
      modifies service`active, service`blocks, service`dirtyInodes
      ensures Running(After(s, step),
                      lost + LostBy(service.cfg, old(service.State()), old(openFiles), threshold, step))
      ensures var t := Turn(old(Here()), request, step, Here());
              && Follows(service.cfg, threshold, t)
              && OutOfStep(service.cfg, t.after) == OutBy(OutOfStep(service.cfg, t.before), t)
    {
      hide OneEach, AllHandlesOk, Sized, Refines, Indexable, Indexes, Sound, Lawful, After, SameShape, Brings,
        RefusedAt, FlushedUpTo, OutOfStep, OutBy, Answers, LostBy, CoreFsFuseMountRw.OutOfBounds;
      ghost var before := Here();
      step := Dispatch(request, s, lost);
      OutExact(service.cfg, threshold, Turn(before, request, step, Here()));
    }

    /** Any run of opens, writes, flushes and closes, over any number of handles, streaming or not, is a
        run of the plain file system, up to the first request out of bounds: every open file shows what
        its user wrote, and every file no dirty handle is open on is stored as on the plain disk. The
        exceptions are exactly the files of handles written back or streamed when they were out of step,
        turn by turn. Handles get out of step exactly by a flush in the middle of streaming, so a run
        that does not write to such a handle again before it is closed has no exception. */
    method Serve(requests: seq<FileRequest>, ghost s: Files, ghost lost: set<Path>)
      returns (served: nat, ghost run: seq<Turn>, ghost gone: set<Path>)
      requires Running(s, lost)
      modifies this`openFiles, this`nextHandle, this`nodes, this`dirty
      modifies service`active, service`blocks, service`dirtyInodes
      ensures |run| == served <= |requests|
      ensures Genuine(service.cfg, threshold, old(Here()), requests, run, Here())
      ensures served < |requests| ==> OutOfBounds(requests[served])
      ensures gone == lost + LostAlong(service.cfg, threshold, run)
      ensures Running(AfterAll(s, run), gone)
      ensures OutOfStep(service.cfg, Here()) == OutAfter(old(OutOfStep(service.cfg, Here())), run)
      ensures old(InStep()) && NoneOverrun({}, run) ==> gone == lost
      ensures old(InStep()) && (NoneReused(run) || NeverReused(requests)) ==> gone == lost
      ensures Spared(service.cfg, threshold, old(Here()), run, Here())
    {
      hide CoreFsFuseMountRw.OutOfBounds, After, AfterAll, LostBy, LostAlong, Genuine, Follows, OutOfStep, OutAfter,
        OutAreClean, OutBy, NoneOverrun, NoneReused, NeverReused, AllInStep, AllHandlesOk, OneEach, Indexable, Indexes,
        Sized, Refines, Sound, Lawful;
      served, run, gone := 0, [], lost;
      ghost var first := Here();
      NothingRun(service.cfg, threshold, s, lost, first, requests);
      while served < |requests| && !OutOfBounds(requests[served])
        invariant |run| == served <= |requests| && Genuine(service.cfg, threshold, first, requests, run, Here())
        invariant gone == lost + LostAlong(service.cfg, threshold, run) && Running(AfterAll(s, run), gone)
        invariant OutOfStep(service.cfg, Here()) == OutAfter(OutOfStep(service.cfg, first), run)
        invariant Spared(service.cfg, threshold, first, run, Here())
      {
        ghost var before := Here();
        assert OneEach(before.handles) && AllHandlesOk(service.cfg, before.volume, before.handles);
        ghost var step := ServeOne(requests[served], AfterAll(s, run), gone);
        ghost var t := Turn(before, requests[served], step, Here());
        NextTurn(service.cfg, threshold, s, lost, first, requests, run, t);
        gone := gone + LostBy(service.cfg, before.volume, before.handles, threshold, step);
        run := run + [t];
        served := served + 1;
      }
      SparedRun(service.cfg, threshold, lost, first, run, Here());
      NoneReusedSuffices(run);
      if NeverReused(requests) { NeverReusedSuffices(service.cfg, threshold, first, requests, run, Here()); }
    }

    /** So a run that does not write to a handle again once it has been flushed, followed by the flush of
        all handles, leaves every file of the service as the plain file system has it. */
    method ServeThenFlush(requests: seq<FileRequest>, ghost s: Files, ghost lost: set<Path>)
      returns (r: Result<()>, served: nat, ghost run: seq<Turn>, ghost gone: set<Path>)
      requires Running(s, lost)
      modifies this`openFiles, this`nextHandle, this`nodes, this`dirty
      modifies service`active, service`blocks, service`dirtyInodes
      ensures |run| == served + 1 && served <= |requests|
      ensures Genuine(service.cfg, threshold, old(Here()), requests[..served] + [FlushAll], run, Here())
      ensures served < |requests| ==> OutOfBounds(requests[served])
      ensures gone == lost + LostAlong(service.cfg, threshold, run)
      ensures run[served].step.Saved?
      ensures r.Ok? <==> run[served].step.files == DirtyHandles(run[served].before.handles)
      ensures r.Ok? ==> forall p :: p in service.active && service.active[p].kind == File && p !in gone ==>
                          && p in AfterAll(s, run).disk
                          && ReadFile(service.cfg, service.State(), p) == Ok(AfterAll(s, run).disk[p])
      ensures old(InStep()) && (NoneReused(run) || NeverReused(requests)) ==> gone == lost
    {
      hide CoreFsFuseMountRw.OutOfBounds, After, AfterAll, LostBy, LostAlong, Genuine, OutOfStep, OutAfter,
        OutAreClean, OutBy, NoneOverrun, NoneReused, NeverReused, AllInStep, AllHandlesOk, OneEach, Indexable, Indexes,
        Sized, Refines, Sound, Lawful, DirtyHandles, ReadFile, Follows, SameShape, Brings, FlushedUpTo;
      ghost var first := Here();
      served, run, gone := Serve(requests, s, lost);
      ghost var before := Here();
      assert OneEach(before.handles) && AllHandlesOk(service.cfg, before.volume, before.handles);
      ghost var step;
      r, step := ServeFlushAll(AfterAll(s, run), gone);
      ghost var t := Turn(before, FlushAll, step, Here());
      ghost var asked := requests[..served] + [FlushAll];
      FlushAllFollows(service.cfg, threshold, t);
      GenuineSo(service.cfg, threshold, first, requests, asked, run, before);
      NextTurn(service.cfg, threshold, s, lost, first, asked, run, t);
      gone := gone + LostBy(service.cfg, before.volume, before.handles, threshold, step);
      run := run + [t];
      NoneReusedSuffices(run);
      if NeverReused(requests) {
        NeverReusedMore(requests, served);
        NeverReusedSuffices(service.cfg, threshold, first, asked, run, Here());
      }
      SparedRun(service.cfg, threshold, lost, first, run, Here());
      if r.Ok? { AllOnDisk(service.cfg, service.State(), openFiles, AfterAll(s, run), gone); }
    }

    // ----- virtual nodes -----

    function Virtual(): Interned
      reads this`virtInoMap, this`virtDirs, this`virtFiles, this`nextVirtIno
    {
      Interned(virtInoMap, virtDirs, virtFiles, nextVirtIno)
    }

    ghost predicate VirtualOk()
      reads this`virtInoMap, this`virtDirs, this`virtFiles, this`nextVirtIno
    {
      WellInterned(Virtual())
    }

    method GetOrCreateVirtDir(key: VirtKey, dir: VirtNode) returns (ino: nat)
      requires VirtualOk() && nextVirtIno > 0 && Fitting(key, dir) && dir.VirtDir?
      modifies this`virtInoMap, this`virtDirs, this`nextVirtIno
      ensures VirtualOk() && Virtual() == Entered(old(Virtual()), key, dir) && Extends(old(Virtual()), Virtual())
      ensures key in virtInoMap && ino == virtInoMap[key] && ino in virtDirs && ino !in virtFiles
    {
      hide NumbersOk, HandedOut;
      EnteredKeeps(Virtual(), key, dir);
      if key in virtInoMap { return virtInoMap[key]; }
      ino := nextVirtIno;
      nextVirtIno := nextVirtIno - 1;
      virtDirs := virtDirs[ino := dir];
      virtInoMap := virtInoMap[key := ino];
    }

    method GetOrCreateVirtFile(key: VirtKey, file: VirtNode) returns (ino: nat)
      requires VirtualOk() && nextVirtIno > 0 && Fitting(key, file) && file.VirtFile?
      modifies this`virtInoMap, this`virtFiles, this`nextVirtIno
      ensures VirtualOk() && Virtual() == Entered(old(Virtual()), key, file) && Extends(old(Virtual()), Virtual())
      ensures key in virtInoMap && ino == virtInoMap[key] && ino in virtFiles && ino !in virtDirs
    {
      hide NumbersOk, HandedOut;
      EnteredKeeps(Virtual(), key, file);
      if key in virtInoMap { return virtInoMap[key]; }
      ino := nextVirtIno;
      nextVirtIno := nextVirtIno - 1;
      virtFiles := virtFiles[ino := file];
      virtInoMap := virtInoMap[key := ino];
    }

    /** A number of a virtual directory; nothing can be changed in one. */
    predicate IsVirtual(ino: nat)
      reads this`virtDirs, service
    {
      ino == SNAPSHOTS_DIR_INO || SnapshotForSubdirIno(service.snapshots, ino).Some? || ino in virtDirs
    }

    /** As long as inode ids stay below the interned numbers, no real directory is taken for a
        virtual one, nor is a real node for a virtual file. */
    lemma RealIsNotVirtual(ino: nat)
      requires IndexOk() && VirtualOk() && service.nextInode + 1 <= nextVirtIno <= VIRT_INO_BASE && ino in nodes
      ensures !IsVirtual(ino) && ino !in virtFiles
    {
      hide Indexable, Indexes, Sound, WellInterned;
      RealInSpan(service.State(), Maps(), ino);
      if ino in virtDirs || ino in virtFiles { InternedInSpan(Virtual(), ino); }
    }

    // ----- looking up and listing -----

    ghost function Maps(): Index
      reads this`nodes, this`inoByPath, this`children
    {
      Index(nodes, inoByPath, children)
    }

    function ChildPath(parent: nat, name: string): Option<Path>
      reads this`nodes
    {
      if parent in nodes then Some(Join(nodes[parent].path, name)) else None
    }

    /** A name is found exactly when the joined path is active, and what is found stands for the
        entry there. */
    function LookupChild(parent: nat, name: string): (r: Option<FuseNode>)
      requires IndexOk() && ProperName(name)
      reads this`nodes, this`inoByPath, this`children, service
      ensures r.Some? <==> parent in nodes && Join(nodes[parent].path, name) in service.active
      ensures r.Some? ==> Mirrors(r.value, service.active[Join(nodes[parent].path, name)])
      ensures r.Some? ==> r.value.Ino() == service.active[Join(nodes[parent].path, name)].id + 1
    {
      if parent !in nodes then None else
        PlaceOf(service.active, Maps(), parent, name);
        PathKnown(service.active, Maps(), Join(nodes[parent].path, name));
        var p := Join(nodes[parent].path, name);
        if p in inoByPath && inoByPath[p] in nodes then Some(nodes[inoByPath[p]]) else None
    }

    method DirectoryEntries(ino: nat) returns (entries: seq<DirEntry>)
      requires IndexOk()
      ensures ino !in nodes <==> entries == []
      ensures ino in nodes ==>
                && |entries| >= 2 && ListsDirectory(service.active, nodes[ino].path, entries[2..])
                && entries[0] == DirEntry(ino, Directory, ".")
                && entries[1] == DirEntry(UpIno(service.active, nodes[ino].path), Directory, "..")
    {
      if ino !in nodes { return []; }
      hide Indexable, Indexes, ListsDirectory, UpIno, ParentPath, BaseName, Join, Sound, Lawful, IsDirectory;
      NodeKnown(service.active, Maps(), ino);
      UpKnown(service.active, Maps(), ino);
      var node := nodes[ino];
      entries := [DirEntry(node.Ino(), Directory, ".")];
      var parentIno := if ino != ROOT_INO && node.parentPath in inoByPath then inoByPath[node.parentPath] else ROOT_INO;
      entries := entries + [DirEntry(parentIno, Directory, "..")];
      var listed := ListNames(node.path);
      BehindDots(entries[0], entries[1], listed);
      entries := entries + listed;
    }

    /** The entries behind the names the index has for a directory. */
    method ListNames(d: Path) returns (entries: seq<DirEntry>)
      requires IndexOk() && d in children
      ensures ListsDirectory(service.active, d, entries)
    {
      hide Indexable, Indexes, Shows, ParentPath, BaseName, Join, Less;
      PathOrder();
      var names := Listing(Less, children[d]);
      entries := [];
      for i := 0 to |names|
        invariant |entries| == i
        invariant forall k :: 0 <= k < i ==> Shows(service.active, d, entries[k]) && entries[k].name == names[k]
      {
        var name := names[i];
        assert name in names;
        NameShown(service.active, Maps(), d, name);
        var childPath := Join(d, name);
        if childPath in inoByPath && inoByPath[childPath] in nodes {
          entries := entries + [DirEntry(inoByPath[childPath], nodes[inoByPath[childPath]].Kind(), name)];
        }
      }
      forall p | p in service.active && ParentPath(p) == d
        ensures exists i :: 0 <= i < |entries| && Join(d, entries[i].name) == p
      {
        NameListed(service.active, Maps(), d, p);
        assert BaseName(p) in names;
        var i :| 0 <= i < |names| && names[i] == BaseName(p);
        assert entries[i].name == names[i];
      }
    }

    /** One page of a listing: the whole listing is fixed by the catalog, and the page is its part
        from the offset up to where the reply's buffer is full. */
    method Readdir(ino: nat, offset: nat, cost: DirEntry -> nat, room: nat)
      returns (r: Reply<seq<DirEntry>>, ghost whole: seq<DirEntry>)
      requires IndexOk()
      ensures r == Failure(ENOENT) <==> ino !in nodes
      ensures r.Done? <==> ino in nodes
      ensures r.Done? ==> WholeListing(service.active, nodes[ino].path, ino, whole)
      ensures r.Done? && offset <= |whole| ==> r.value == whole[offset..PageEnd(whole, cost, offset, room)]
      ensures r.Done? && offset > |whole| ==> r.value == []
    {
      var entries := DirectoryEntries(ino);
      whole := entries;
      if entries == [] { return Failure(ENOENT), whole; }
      hide ListsDirectory, Indexable, Indexes, UpIno, PageEnd;
      if ino == ROOT_INO {
        InFrontOfLast(entries, DirEntry(SNAPSHOTS_DIR_INO, Directory, ".snapshots"));
        entries := entries + [DirEntry(SNAPSHOTS_DIR_INO, Directory, ".snapshots")];
      }
      whole := entries;
      var page := FillPage(entries, cost, offset, room);
      r := Done(page);
    }

    /** A reader that goes on behind the last entry received until a page comes empty. The catalog
        does not change meanwhile, so all pages are cut from one listing: with room for any single entry
        the reader has the whole of it, after at most one call more than there are entries. */
    method ReadWhole(ino: nat, cost: DirEntry -> nat, rooms: nat -> nat)
      returns (r: Reply<seq<DirEntry>>, calls: nat, ghost whole: seq<DirEntry>)
      requires IndexOk()
      ensures r == Failure(ENOENT) <==> ino !in nodes
      ensures r.Done? <==> ino in nodes
      ensures r.Done? ==>
                && WholeListing(service.active, nodes[ino].path, ino, whole)
                && r.value == Paged(whole, cost, rooms, 0, 0) && calls == PageCalls(whole, cost, rooms, 0, 0)
                && r.value <= whole
      ensures r.Done? && (forall n, i :: 0 <= i < |whole| ==> cost(whole[i]) <= rooms(n)) ==>
                r.value == whole && calls <= |whole| + 1
    {
      hide Indexes, Indexable, WholeListing, PageEnd, Paged, PageCalls, Received;
      calls := 1;
      var page;
      page, whole := Readdir(ino, 0, cost, rooms(0));
      if page.Failure? { return page, calls, whole; }
      FirstReceived(whole, cost, rooms, page.value);
      var entries := page.value;
      while page.value != []
        invariant page.Done? && |entries| <= |whole| && Received(whole, cost, rooms, calls, entries, page.value == [])
        decreases |whole| - |entries|, page.value != []
      {
        page := NextPage(ino, |entries|, cost, rooms(calls), whole);
        NextReceived(whole, cost, rooms, calls, entries, page.value);
        entries := entries + page.value;
        calls := calls + 1;
      }
      AllReceived(whole, cost, rooms, calls, entries);
      r := Done(entries);
    }

    /** A later page is cut from the same listing. */
    method NextPage(ino: nat, offset: nat, cost: DirEntry -> nat, room: nat, ghost whole: seq<DirEntry>)
      returns (page: Reply<seq<DirEntry>>)
      requires IndexOk() && ino in nodes && WholeListing(service.active, nodes[ino].path, ino, whole)
      requires offset <= |whole|
      ensures page.Done? && page.value == whole[offset..PageEnd(whole, cost, offset, room)]
    {
      hide Indexes, WholeListing, PageEnd;
      ghost var again;
      page, again := Readdir(ino, offset, cost, room);
      IndexableProper(service.active);
      hide Indexable;
      WholeListingUnique(service.active, nodes[ino].path, ino, whole, again);
    }

    // ----- changing the tree -----

    ghost predicate TreeOk()
      reads this`nodes, this`inoByPath, this`children, service
    {
      IndexOk() && TreeShaped(service.active)
    }

    /** What the kernel has checked before it calls. */
    predicate KernelChecked(parent: nat, name: string)
      reads this`nodes
    {
      ProperName(name) && (parent in nodes ==> nodes[parent].Kind() == Directory)
    }

    method RegisterNode(node: FuseNode)
      modifies this`nodes, this`inoByPath, this`children
      ensures Maps() == Registered(old(Maps()), node)
    {
      var ino := node.Ino();
      inoByPath := inoByPath[node.path := ino];
      children := AddDirectory(children, node.path);
      children := AddChild(children, node.parentPath, BaseName(node.path));
      nodes := nodes[ino := node];
    }

    method UnregisterIno(ino: nat)
      modifies this`nodes, this`inoByPath, this`children
      ensures Maps() == Unregistered(old(Maps()), ino)
    {
      if ino !in nodes { return; }
      var node := nodes[ino];
      nodes := nodes - {ino};
      inoByPath := inoByPath - {node.path};
      children := children - {node.path};
      if node.parentPath in children {
        children := children[node.parentPath := children[node.parentPath] - {BaseName(node.path)}];
      }
    }

    /** When a new entry is refused, in terms of the catalog. */
    ghost function AddRefusal(parent: nat, name: string, newFiles: nat): Option<Errno>
      reads this, service
    {
      if IsVirtual(parent) then Some(EROFS)
      else if parent !in nodes then Some(ENOENT)
      else
        var path := Join(nodes[parent].path, name);
        if path in service.active then Some(EEXIST)
        else if CreateRefusal(service.cfg, service.State(), path, newFiles, 0).Some? then Some(EIO)
        else None
    }

    /** Put the entry just made at the path into the index. */
    method RegisterCreated(path: Path, ghost v: Volume, ghost node: Node) returns (ino: nat)
      requires service.Valid() && Indexable(v.active) && Indexes(v.active, Maps()) && TreeShaped(v.active)
      requires Updated(service.cfg, service.saved, v, service.State(), path, node) && path !in v.active && Proper(path)
      requires IsDirectory(v.active, ParentPath(path))
      modifies this`nodes, this`inoByPath, this`children, this`dirty
      ensures TreeOk() && path in service.active && ino == service.active[path].id + 1 && ino in nodes && dirty
      ensures nodes[ino].Kind() == service.active[path].kind && nodes[ino].path == path
      ensures Maps() == Registered(old(Maps()), FuseNode(path, ParentPath(path), Some(service.active[path]), []))
    {
      hide Indexable, Indexes, TreeShaped, Proper, ParentPath, BaseName, Faithful, Tree, Trash, IsDirectory, Sound,
        Lawful, Covers, AddDirectory, AddChild;
      EntryAdded(service.cfg, v, service.State(), Maps(), path, node);
      NewInode(v, service.State(), path);
      var inode := service.active[path];
      RegisterNode(FuseNode(path, ParentPath(path), Some(inode), []));
      dirty := true;
      ino := inode.id + 1;
    }

    /** A new entry gets its caller's owner and mode. */
    method SetCredentials(path: Path, uid: nat, gid: nat, mode: bv32, ghost v: Volume, ghost node: Node)
      requires service.Valid() && Updated(service.cfg, service.saved, v, service.State(), path, node)
      modifies service`active
      ensures service.Valid() && Updated(service.cfg, service.saved, v, service.State(), path, node)
      ensures path in old(service.active) && path in service.active
      ensures var was, now := old(service.active)[path], service.active[path];
              && now.id == was.id && now.kind == was.kind
              && now.meta == was.meta.(attributes := was.meta.attributes.(
                                         uid := uid, gid := gid, mode := Permissions(mode)))
    {
      hide Sound, Lawful, Updated, NodeOf, Permissions;
      ghost var u := service.State();
      UpdatedNode(service.cfg, service.saved, v, u, path, node);
      var owned := service.SetOwner(path, Some(uid), Some(gid));
      ghost var w := service.State();
      UpdatedTwice(service.cfg, service.saved, v, u, w, path, node, node);
      UpdatedNode(service.cfg, service.saved, v, w, path, node);
      var permitted := service.SetMode(path, mode);
      UpdatedTwice(service.cfg, service.saved, v, w, service.State(), path, node, node);
    }

    /** The service's share of `mkdir`. */
    method MakeDirectory(path: Path, uid: nat, gid: nat, mode: bv32) returns (r: Result<()>)
      requires service.Valid()
      modifies service`active, service`blocks, service`dirtyInodes, service`nextInode, service`recycled
      ensures service.Valid()
      ensures r == Check(CreateRefusal(service.cfg, old(service.State()), path, 0, 0))
      ensures r.Err? ==> SameEntries(old(service.State()), service.State())
      ensures r.Ok? ==> Updated(service.cfg, service.saved, old(service.State()), service.State(), path, Dir)
      ensures r.Ok? ==> path in service.active
      ensures r.Ok? ==> service.active[path].meta.attributes == Attributes(Permissions(mode), uid, gid, [])
    {
      hide Sound, Lawful, Updated, CreateRefusal, Permissions;
      ghost var v := service.State();
      r := service.CreateDirectory(path);
      if r.Ok? { SetCredentials(path, uid, gid, mode, v, Dir); }
    }

    /** The service's share of `create`. */
    method MakeFile(path: Path, uid: nat, gid: nat, mode: bv32) returns (r: Result<()>)
      requires service.Valid()
      modifies service`active, service`blocks, service`dirtyInodes, service`nextInode, service`recycled
      ensures service.Valid()
      ensures r == Check(CreateRefusal(service.cfg, old(service.State()), path, 1, 0))
      ensures r.Err? ==> SameEntries(old(service.State()), service.State())
      ensures r.Ok? ==>
                Updated(service.cfg, service.saved, old(service.State()), service.State(), path, Regular(Some([])))
      ensures r.Ok? ==> path in service.active && service.active[path].kind == File
      ensures r.Ok? ==> service.active[path].meta.attributes == Attributes(Permissions(mode), uid, gid, [])
    {
      hide Sound, Lawful, Updated, CreateRefusal, Permissions;
      ghost var v := service.State();
      r := service.CreateFile(path, [], []);
      if r.Ok? { SetCredentials(path, uid, gid, mode, v, Regular(Some([]))); }
    }

    /** A new directory, owned by its caller. */
    method Mkdir(parent: nat, name: string, uid: nat, gid: nat, mode: bv32, umask: bv32) returns (r: Reply<nat>)
      requires TreeOk() && HandlesOk() && KernelChecked(parent, name)
      modifies this`nodes, this`inoByPath, this`children, this`dirty
      modifies service`active, service`blocks, service`dirtyInodes, service`nextInode, service`recycled
      ensures TreeOk() && HandlesOk()
      ensures old(AddRefusal(parent, name, 0)) == (if r.Failure? then Some(r.errno) else None)
      ensures dirty == (old(dirty) || r.Done? || r == Failure(EIO))
      ensures r.Failure? ==> Maps() == old(Maps()) && SameEntries(old(service.State()), service.State())
      ensures r.Done? ==>
                var path := Join(old(nodes)[parent].path, name);
                && Updated(service.cfg, service.saved, old(service.State()), service.State(), path, Dir)
                && service.active[path].meta.attributes
                   == Attributes(Permissions(RequestedMode(mode, umask, 0x1ED)), uid, gid, [])
                && r.value == service.active[path].id + 1 && r.value in nodes
                && Maps() == Registered(old(Maps()), FuseNode(path, ParentPath(path), Some(service.active[path]), []))
    {
      hide Indexable, Indexes, TreeShaped, Sound, Lawful, Proper, Join, ParentPath, BaseName, AllHandlesOk, Updated,
        SnapshotForSubdirIno, Registered, Faithful, Covers, Tree, QuotaOk, ReadFile, SameNode, IsDirectory, Touched,
        Permissions, RequestedMode;
      if IsVirtual(parent) { return Failure(EROFS); }
      var place := ChildPath(parent, name);
      if place.None? { return Failure(ENOENT); }
      var path := place.value;
      PlaceOf(service.active, Maps(), parent, name);
      NodeKnown(service.active, Maps(), parent);
      PathKnown(service.active, Maps(), path);
      if path in inoByPath { return Failure(EEXIST); }
      EnsureMutationSession();
      ghost var v := service.State();
      var made := MakeDirectory(path, uid, gid, RequestedMode(mode, umask, 0x1ED));
      if made.Err? {
        HandlesStaySame(service.cfg, v, service.State(), openFiles);
        r := Failure(EIO);
      } else {
        HandlesStayAdded(service.cfg, service.saved, v, service.State(), path, Dir, openFiles);
        var ino := RegisterCreated(path, v, Dir);
        r := Done(ino);
      }
    }

    /** A new empty file, opened at once. */
    method Create(parent: nat, name: string, uid: nat, gid: nat, mode: bv32, umask: bv32, truncate: bool)
      returns (r: Reply<(nat, nat)>)
      requires TreeOk() && HandlesOk() && KernelChecked(parent, name)
      modifies this`nodes, this`inoByPath, this`children, this`dirty, this`openFiles, this`nextHandle
      modifies service`active, service`blocks, service`dirtyInodes, service`nextInode, service`recycled
      ensures TreeOk() && HandlesOk()
      ensures old(AddRefusal(parent, name, 1)) == (if r.Failure? then Some(r.errno) else None)
      ensures dirty == (old(dirty) || r.Done? || r == Failure(EIO))
      ensures r.Failure? ==>
                && Maps() == old(Maps()) && openFiles == old(openFiles)
                && SameEntries(old(service.State()), service.State())
      ensures r.Done? ==>
                var path := Join(old(nodes)[parent].path, name);
                && Updated(service.cfg, service.saved, old(service.State()), service.State(), path, Regular(Some([])))
                && service.active[path].meta.attributes
                   == Attributes(Permissions(RequestedMode(mode, umask, 0x1A4)), uid, gid, [])
                && r.value.0 == service.active[path].id + 1 && r.value.0 in nodes
                && openFiles == old(openFiles)[r.value.1 := OpenFileHandle(r.value.0, path, [], 0, truncate)]
    {
      hide Indexable, Indexes, TreeShaped, Sound, Lawful, Proper, Join, ParentPath, BaseName, AllHandlesOk, Updated,
        SnapshotForSubdirIno, Registered, Faithful, Covers, Tree, QuotaOk, ReadFile, SameNode, IsDirectory, Touched,
        Permissions, RequestedMode;
      if IsVirtual(parent) { return Failure(EROFS); }
      var place := ChildPath(parent, name);
      if place.None? { return Failure(ENOENT); }
      var path := place.value;
      PlaceOf(service.active, Maps(), parent, name);
      NodeKnown(service.active, Maps(), parent);
      PathKnown(service.active, Maps(), path);
      if path in inoByPath { return Failure(EEXIST); }
      EnsureMutationSession();
      ghost var v := service.State();
      var made := MakeFile(path, uid, gid, RequestedMode(mode, umask, 0x1A4));
      if made.Err? {
        HandlesStaySame(service.cfg, v, service.State(), openFiles);
        r := Failure(EIO);
      } else {
        HandlesStayAdded(service.cfg, service.saved, v, service.State(), path, Regular(Some([])), openFiles);
        var ino := RegisterCreated(path, v, Regular(Some([])));
        NewFileEmpty(service.cfg, service.saved, v, service.State(), path);
        var handle := OpenFile(ino, truncate);
        r := Done((ino, handle.value));
      }
    }

    /** When taking an entry away is refused, in terms of the catalog. */
    ghost function RemoveRefusal(parent: nat, name: string, directory: bool): Option<Errno>
      reads this, service
    {
      if IsVirtual(parent) then Some(EROFS)
      else if parent !in nodes then Some(ENOENT)
      else
        var path := Join(nodes[parent].path, name);
        if path !in service.active then Some(ENOENT)
        else if !directory then if service.active[path].kind == Directory then Some(EISDIR) else None
        else if service.active[path].kind != Directory then Some(ENOTDIR)
        else if !Vacant(service.active, path) then Some(ENOTEMPTY)
        else None
    }

    /** The common end of unlink and rmdir. */
    method RemoveEntry(path: Path, ino: nat)
      requires TreeOk() && path in service.active && ino == service.active[path].id + 1 && Vacant(service.active, path)
      modifies this`nodes, this`inoByPath, this`children, this`dirty
      modifies service`active, service`deleted, service`recovery, service`blocks, service`recycled, service`dirtyInodes
      ensures TreeOk() && service.State() == Trashed(old(service.State()), path) && dirty
      ensures Maps() == Unregistered(old(Maps()), ino)
      ensures old(HandlesOk()) ==> (HandlesOk() <==> NotStreamed(openFiles, path))
      ensures Faithful(service.cfg, old(service.State())) ==> Faithful(service.cfg, service.State())
    {
      hide Indexable, Indexes, TreeShaped, Sound, Lawful, ParentPath, BaseName, AllHandlesOk, Vacant, NotStreamed,
        Unregistered, Faithful, Covers;
      ghost var v := service.State();
      EntryRemoved(v, Maps(), path);
      if AllHandlesOk(service.cfg, v, openFiles) { HandlesAfterTrash(service.cfg, v, path, openFiles); }
      EnsureMutationSession();
      var gone := service.DeleteFile(path, false);
      UnregisterIno(ino);
      dirty := true;
    }

    /** Removing a file or symlink makes it recoverable. */
    method Unlink(parent: nat, name: string) returns (r: Reply<()>)
      requires TreeOk() && KernelChecked(parent, name)
      modifies this`nodes, this`inoByPath, this`children, this`dirty
      modifies service`active, service`deleted, service`recovery, service`blocks, service`recycled, service`dirtyInodes
      ensures TreeOk()
      ensures old(RemoveRefusal(parent, name, false)) == (if r.Failure? then Some(r.errno) else None)
      ensures dirty == (old(dirty) || r.Done?)
      ensures r.Failure? ==> Maps() == old(Maps()) && service.State() == old(service.State())
      ensures r.Done? ==>
                var path := Join(old(nodes)[parent].path, name);
                && service.State() == Trashed(old(service.State()), path)
                && Maps() == Unregistered(old(Maps()), old(service.active)[path].id + 1)
                && (forall p :: p in old(service.active) ==>
                      (SameFileAt(old(service.State()), service.State(), p) <==> p != path))
                && (old(HandlesOk()) ==> (HandlesOk() <==> NotStreamed(openFiles, path)))
    {
      hide Indexable, Indexes, TreeShaped, Sound, Lawful, Join, ParentPath, BaseName, AllHandlesOk, Vacant,
        NotStreamed, SnapshotForSubdirIno, Trashed, SameFileAt;
      if IsVirtual(parent) { return Failure(EROFS); }
      var place := ChildPath(parent, name);
      if place.None? { return Failure(ENOENT); }
      var path := place.value;
      PlaceOf(service.active, Maps(), parent, name);
      PathKnown(service.active, Maps(), path);
      if path !in inoByPath { return Failure(ENOENT); }
      var ino := inoByPath[path];
      if ino in nodes && nodes[ino].Kind() == Directory { return Failure(EISDIR); }
      FileVacant(service.active, path);
      TrashedReaches(service.State(), path);
      RemoveEntry(path, ino);
      r := Done(());
    }

    /** Removing a directory is refused as long as something lies in it. */
    method Rmdir(parent: nat, name: string) returns (r: Reply<()>)
      requires TreeOk() && KernelChecked(parent, name)
      modifies this`nodes, this`inoByPath, this`children, this`dirty
      modifies service`active, service`deleted, service`recovery, service`blocks, service`recycled, service`dirtyInodes
      ensures TreeOk()
      ensures old(RemoveRefusal(parent, name, true)) == (if r.Failure? then Some(r.errno) else None)
      ensures dirty == (old(dirty) || r.Done?)
      ensures r.Failure? ==> Maps() == old(Maps()) && service.State() == old(service.State())
      ensures r.Done? ==>
                var path := Join(old(nodes)[parent].path, name);
                && service.State() == Trashed(old(service.State()), path)
                && Maps() == Unregistered(old(Maps()), old(service.active)[path].id + 1)
                && (forall p :: p in old(service.active) ==>
                      (SameFileAt(old(service.State()), service.State(), p) <==> p != path))
                && (old(HandlesOk()) ==> (HandlesOk() <==> NotStreamed(openFiles, path)))
    {
      hide Indexable, Indexes, TreeShaped, Sound, Lawful, Join, ParentPath, BaseName, AllHandlesOk, Vacant,
        NotStreamed, SnapshotForSubdirIno, Trashed, SameFileAt;
      if IsVirtual(parent) { return Failure(EROFS); }
      var place := ChildPath(parent, name);
      if place.None? { return Failure(ENOENT); }
      var path := place.value;
      PlaceOf(service.active, Maps(), parent, name);
      PathKnown(service.active, Maps(), path);
      if path !in inoByPath { return Failure(ENOENT); }
      var ino := inoByPath[path];
      if ino in nodes && nodes[ino].Kind() != Directory { return Failure(ENOTDIR); }
      EmptyIsVacant(service.active, Maps(), path);
      if path in children && children[path] != {} { return Failure(ENOTEMPTY); }
      TrashedReaches(service.State(), path);
      RemoveEntry(path, ino);
      r := Done(());
    }

    /** No handle streams into the moved subtree, and those on the replaced path are in order with what
        lies there now. */
    ghost predicate StreamsSpared(handles: map<nat, OpenFileHandle>, from: Path, to: Path)
      reads service
    {
      && NoneStreamed(handles, from)
      && forall f :: f in handles && handles[f].path == to ==> HandleOk(service.cfg, service.State(), handles[f])
    }

    /** When a rename is refused, in terms of the catalog. */
    ghost function RenameRefusal(parent: nat, name: string, newParent: nat, newName: string, flags: nat): Option<Errno>
      reads this, service
    {
      if IsVirtual(parent) || IsVirtual(newParent) then Some(EROFS)
      else if flags / 2 % 2 == 1 then Some(EINVAL)
      else if parent !in nodes || newParent !in nodes then Some(ENOENT)
      else
        var from, to := Join(nodes[parent].path, name), Join(nodes[newParent].path, newName);
        MoveRefusal(service.active, from, to, flags % 2 == 1)
    }

    /** The kernel renames nothing onto itself or into its own subtree. */
    predicate KernelCheckedRename(parent: nat, name: string, newParent: nat, newName: string)
      reads this`nodes
    {
      && KernelChecked(parent, name) && KernelChecked(newParent, newName)
      && (parent in nodes && newParent in nodes ==>
            var from := Join(nodes[parent].path, name);
            from != Join(nodes[newParent].path, newName) && !InSubtree(from, nodes[newParent].path))
    }

    /** A rename that is not refused moves the whole subtree, makes a replaced entry recoverable,
        and leaves a tree with its index. */
    method Rename(parent: nat, name: string, newParent: nat, newName: string, flags: nat)
      returns (r: Reply<()>, ghost now: nat)
      requires TreeOk() && KernelCheckedRename(parent, name, newParent, newName)
      modifies this`nodes, this`inoByPath, this`children, this`dirty
      modifies service`active, service`deleted, service`recovery, service`dirtyInodes
      ensures TreeOk()
      ensures old(RenameRefusal(parent, name, newParent, newName, flags))
        == (if r.Failure? then Some(r.errno) else None)
      ensures dirty == (old(dirty) || r.Done?)
      ensures r.Failure? ==> Maps() == old(Maps()) && service.State() == old(service.State())
      ensures r.Done? ==>
                var from, to := Join(old(nodes)[parent].path, name), Join(old(nodes)[newParent].path, newName);
                var base := RenameBase(old(service.State()), to);
                && service.State() == base.(active := service.active)
                && Relocated(base.active, SubtreeMoves(base.active, from, to), now, service.active)
                && FilesMoved(old(service.State()), service.State(), from, to)
                && (old(HandlesOk()) ==> (HandlesOk() <==> StreamsSpared(openFiles, from, to)))
    {
      hide Indexable, Indexes, TreeShaped, Sound, Lawful, Join, ParentPath, BaseName, AllHandlesOk, Vacant,
        NotStreamed, NoneStreamed, SnapshotForSubdirIno, Relocated, InSubtree, SubtreeMoves, RenameBase, AllProper,
        IsDirectory, Faithful, Covers;
      now := 0;
      if IsVirtual(parent) || IsVirtual(newParent) { return Failure(EROFS), now; }
      if flags / 2 % 2 == 1 { return Failure(EINVAL), now; }
      var source, target := ChildPath(parent, name), ChildPath(newParent, newName);
      if source.None? || target.None? { return Failure(ENOENT), now; }
      var from, to := source.value, target.value;
      PlaceOf(service.active, Maps(), parent, name);
      PlaceOf(service.active, Maps(), newParent, newName);
      NodeKnown(service.active, Maps(), newParent);
      PathKnown(service.active, Maps(), from);
      PathKnown(service.active, Maps(), to);
      if from !in inoByPath { return Failure(ENOENT), now; }
      if flags % 2 == 1 && to in inoByPath { return Failure(EEXIST), now; }
      var fromDir := nodes[inoByPath[from]].Kind() == Directory;
      if to in inoByPath {
        var toDir := nodes[inoByPath[to]].Kind() == Directory;
        if fromDir && !toDir { return Failure(ENOTDIR), now; }
        if !fromDir && toDir { return Failure(EISDIR), now; }
        EmptyIsVacant(service.active, Maps(), to);
        if toDir && to in children && children[to] != {} { return Failure(ENOTEMPTY), now; }
      }
      now := MoveEntry(from, to);
      r := Done(());
    }

    /** The common end of every rename that is not refused. */
    method MoveEntry(from: Path, to: Path) returns (ghost now: nat)
      requires TreeOk() && MoveRefusal(service.active, from, to, false).None? && from != to
      requires Proper(to) && IsDirectory(service.active, ParentPath(to)) && !InSubtree(from, ParentPath(to))
      modifies this`nodes, this`inoByPath, this`children, this`dirty
      modifies service`active, service`deleted, service`recovery, service`dirtyInodes
      ensures TreeOk() && dirty
      ensures var base := RenameBase(old(service.State()), to);
              && service.State() == base.(active := service.active)
              && Relocated(base.active, SubtreeMoves(base.active, from, to), now, service.active)
      ensures FilesMoved(old(service.State()), service.State(), from, to)
      ensures old(HandlesOk()) ==> (HandlesOk() <==> StreamsSpared(openFiles, from, to))
    {
      hide Indexable, Indexes, TreeShaped, Sound, Lawful, ParentPath, BaseName, AllHandlesOk, Vacant, NotStreamed,
        NoneStreamed, Proper, Relocated, InSubtree, SubtreeMoves, RenameBase, AllProper, IsDirectory, Faithful,
        Covers, Clear, MoveRefusal, FreeInTurn, FilesMoved, CleanlyRenamed;
      ghost var v := service.State();
      IndexableProper(v.active);
      MovesSomething(v.active, from, to);
      var renamed: Result<()>;
      ghost var paths: seq<Path>;
      EntryMoved(v, from, to, 0, v.active);
      renamed, now, paths := service.RenameEntry(from, to);
      EntryMoved(v, from, to, now, service.active);
      ClearInTurn(RenameBase(v, to).active, SubtreeMoves(RenameBase(v, to).active, from, to), paths);
      SoundIndexable(service.State());
      RebuildIndexes();
      dirty := true;
      SoundRename(v, service.State(), from, to, now);
      if AllHandlesOk(service.cfg, v, openFiles) {
        HandlesAfterRename(service.cfg, v, service.State(), from, to, now, openFiles);
      }
    }

    /** Where the bytes of a handle go when it is written back after a rename: nowhere when its file lay
        in the moved subtree, into the moved file when it was the one replaced, and into the file they
        were written to in all other cases. */
    method WriteBackAfterRename(parent: nat, name: string, newParent: nat, newName: string, flags: nat,
                                h: OpenFileHandle)
      returns (renamed: Reply<()>, written: Result<()>, ghost from: Path, ghost to: Path)
      requires TreeOk() && KernelCheckedRename(parent, name, newParent, newName)
      requires h.path in service.active
      modifies this`nodes, this`inoByPath, this`children, this`dirty
      modifies service`active, service`deleted, service`recovery, service`blocks, service`dirtyInodes
      ensures service.Valid()
      ensures old(parent in nodes && newParent in nodes) ==>
                from == Join(old(nodes)[parent].path, name) && to == Join(old(nodes)[newParent].path, newName)
      ensures renamed.Done? ==> old(parent in nodes && newParent in nodes)
      ensures renamed.Done? && InSubtree(from, h.path) ==>
                written == Err(NotFound) && h.path !in service.active
      ensures renamed.Done? && written.Ok? ==>
                && WrittenInto(old(service.State()), service.State(), from, to, h.path)
                && (h.committedSize == 0 ==>
                      ReadFile(service.cfg, service.State(), h.path) == Ok(h.data))
    {
      hide Indexable, Indexes, TreeShaped, Sound, Lawful, Join, AllHandlesOk, Relocated, SubtreeMoves, RenameBase,
        SnapshotForSubdirIno, Covers, Faithful, Tree, ReadFile, Updated, InSubtree;
      written, from, to := Err(Error.State), "/", "/";
      if parent in nodes && newParent in nodes {
        from, to := Join(nodes[parent].path, name), Join(nodes[newParent].path, newName);
      }
      ghost var now;
      ghost var v := service.State();
      renamed, now := Rename(parent, name, newParent, newName, flags);
      if renamed.Done? {
        ghost var w := service.State();
        LeftBehind(service.cfg, v, w, from, to, h);
        written := HandOver(h);
        if written.Ok? { RewrittenInto(service.cfg, service.saved, v, w, service.State(), from, to, h.path); }
      }
    }
  }
}
