/** What open files are to their users: a file is read when it is opened, changed by writes, and put
    back when it is flushed or closed. Against it, runs of the handles of a mount are judged. */
module PlainFiles {
  import opened ByteStrings
  import opened Wrappers
  import opened Paths
  import opened Storage
  import opened Volumes
  import opened Changes
  import opened Snapshots
  import opened WriteBack
  import opened FuseIndex
  import opened FuseHandles
  import opened Directories

  datatype OpenFile = OpenFile(path: Path, bytes: Bytes)

  datatype Files = Files(disk: map<Path, Bytes>, open: map<nat, OpenFile>)

  datatype Step =
    | Refused
    | Opened(fh: nat, path: Path, truncate: bool)
    | Wrote(fh: nat, start: nat, bytes: Bytes)
    | Saved(files: set<nat>)
    | Closed(fh: nat)

  /** What users ask of the open files of a mount. */
  datatype FileRequest =
    | Open(ino: nat, truncate: bool)
    | Write(ino: nat, fh: nat, offset: int, bytes: Bytes)
    | Flush(fh: nat)
    | FlushAll
    | Release(fh: nat)

  /** The step is what the request asks for; what becomes of an open is fixed by the node. */
  predicate Answers(nodes: map<nat, FuseNode>, request: FileRequest, step: Step) {
    match request
    case Open(ino, truncate) =>
      if ino in nodes && nodes[ino].Kind() == File
      then step.Opened? && step.path == nodes[ino].path && step.truncate == truncate
      else step == Refused
    case Write(ino, fh, offset, bytes) => step == Refused || step == Wrote(fh, FromOffset(offset), bytes)
    case Flush(fh) => step == Refused || step == Saved({fh})
    case FlushAll => step.Saved?
    case Release(fh) => step == Refused || step == Closed(fh)
  }

  /** What the disk has for a path when some open files are put back. */
  ghost function SavedBytes(s: Files, files: set<nat>, p: Path): Bytes
    requires p in s.disk
  {
    if exists f :: f in files && f in s.open && s.open[f].path == p
    then var f :| f in files && f in s.open && s.open[f].path == p; s.open[f].bytes
    else s.disk[p]
  }

  ghost function PutBack(s: Files, files: set<nat>): Files {
    s.(disk := map p | p in s.disk :: SavedBytes(s, files, p))
  }

  ghost function After(s: Files, e: Step): Files {
    match e
    case Refused => s
    case Opened(fh, path, truncate) =>
      s.(open := s.open[fh := OpenFile(path, if truncate || path !in s.disk then [] else s.disk[path])])
    case Wrote(fh, start, bytes) =>
      if fh in s.open
      then s.(open := s.open[fh := s.open[fh].(bytes := Splice(s.open[fh].bytes, start, bytes))]) else s
    case Saved(files) => PutBack(s, files)
    case Closed(fh) => PutBack(s, {fh}).(open := s.open - {fh})
  }

  // ----- runs -----

  /** What a run of requests sees of a mount. */
  datatype Scene = Scene(volume: Volume, handles: map<nat, OpenFileHandle>, nodes: map<nat, FuseNode>)

  /** One request of a run, what became of it, and the mount before and after. */
  datatype Turn = Turn(before: Scene, request: FileRequest, step: Step, after: Scene)

  ghost function AfterAll(s: Files, run: seq<Turn>): Files {
    if run == [] then s else After(AfterAll(s, run[..|run| - 1]), run[|run| - 1].step)
  }

  lemma AfterNext(s: Files, run: seq<Turn>, t: Turn)
    ensures AfterAll(s, run + [t]) == After(AfterAll(s, run), t.step)
  {
    assert (run + [t])[..|run|] == run;
  }

  // ----- what the mount has to do with it -----

  /** No dirty handle is open on the path. */
  ghost predicate Untouched(handles: map<nat, OpenFileHandle>, p: Path) {
    forall f :: f in handles && handles[f].dirty ==> handles[f].path != p
  }

  /** The handle shows these bytes. */
  ghost predicate ShowsBytes(cfg: Config, v: Volume, h: OpenFileHandle, bytes: Bytes) {
    ViewOf(cfg, v, h).WellFormed() && ViewOf(cfg, v, h).Logical() == bytes
  }

  /** The handle has the open file's path and, unless the file is lost, shows it; if it is clean, the
      file is on the disk as well. */
  ghost predicate HandleRefines(cfg: Config, v: Volume, h: OpenFileHandle, fh: nat, s: Files, lost: set<Path>) {
    && fh in s.open && h.path == s.open[fh].path && h.path in s.disk
    && (h.path !in lost ==>
          ShowsBytes(cfg, v, h, s.open[fh].bytes) && (!h.dirty ==> s.disk[h.path] == s.open[fh].bytes))
  }

  /** The disk has the files, and those not lost that no dirty handle is open on are in the service as
      they are on the disk. */
  ghost predicate PathRefines(cfg: Config, v: Volume, handles: map<nat, OpenFileHandle>, s: Files, lost: set<Path>,
                              p: Path) {
    && (p in s.disk <==> p in v.active && v.active[p].kind == File)
    && (p in s.disk && p !in lost && Untouched(handles, p) ==> ReadFile(cfg, v, p) == Ok(s.disk[p]))
  }

  ghost predicate Refines(cfg: Config, v: Volume, handles: map<nat, OpenFileHandle>, s: Files, lost: set<Path>) {
    && s.open.Keys == handles.Keys
    && (forall f :: f in handles ==> HandleRefines(cfg, v, handles[f], f, s, lost))
    && (forall p :: PathRefines(cfg, v, handles, s, lost, p))
  }

  /** No file is open twice. */
  ghost predicate OneEach(handles: map<nat, OpenFileHandle>) {
    forall f, g :: f in handles && g in handles && f != g ==> handles[f].path != handles[g].path
  }

  lemma OneEachApart(handles: map<nat, OpenFileHandle>)
    requires OneEach(handles)
    ensures DirtyApart(handles) && forall fh :: Sole(handles, fh)
  {
  }

  /** Opening a file no handle is open on. */
  lemma OpenStep(cfg: Config, v: Volume, handles: map<nat, OpenFileHandle>, s: Files, lost: set<Path>, fh: nat,
                 h: OpenFileHandle, truncate: bool)
    requires Refines(cfg, v, handles, s, lost) && OneEach(handles) && fh !in handles
    requires forall f :: f in handles ==> handles[f].path != h.path
    requires h.path in v.active && v.active[h.path].kind == File && h.committedSize == 0 && h.dirty == truncate
    requires h.data == if truncate then [] else ServedBytes(cfg, v, h.path)
    ensures Refines(cfg, v, handles[fh := h], After(s, Opened(fh, h.path, truncate)), lost)
    ensures OneEach(handles[fh := h])
  {
    var b, t := handles[fh := h], After(s, Opened(fh, h.path, truncate));
    hide ShowsBytes, ServedBytes, ReadFile;
    assert HandleRefines(cfg, v, h, fh, t, lost) by { NewOpenFile(cfg, v, handles, s, lost, fh, h, truncate); }
    forall p ensures PathRefines(cfg, v, b, t, lost, p) {
      assert PathRefines(cfg, v, handles, s, lost, p);
      if Untouched(b, p) { UntouchedBefore(handles, b, fh, p); }
    }
    forall f | f in handles ensures HandleRefines(cfg, v, b[f], f, t, lost) {
      assert HandleRefines(cfg, v, handles[f], f, s, lost);
    }
  }

  lemma UntouchedBefore(a: map<nat, OpenFileHandle>, b: map<nat, OpenFileHandle>, fh: nat, p: Path)
    requires Untouched(b, p) && forall f :: f in a && a[f].dirty ==> f in b && b[f].dirty && b[f].path == a[f].path
    ensures Untouched(a, p)
  {
  }

  lemma NewOpenFile(cfg: Config, v: Volume, handles: map<nat, OpenFileHandle>, s: Files, lost: set<Path>, fh: nat,
                    h: OpenFileHandle, truncate: bool)
    requires PathRefines(cfg, v, handles, s, lost, h.path) && forall f :: f in handles ==> handles[f].path != h.path
    requires h.path in v.active && v.active[h.path].kind == File && h.committedSize == 0 && h.dirty == truncate
    requires h.data == if truncate then [] else ServedBytes(cfg, v, h.path)
    ensures HandleRefines(cfg, v, h, fh, After(s, Opened(fh, h.path, truncate)), lost)
  {
    assert ViewOf(cfg, v, h).Logical() == h.data;
  }

  /** The file a streamed write gets wrong: the handle was out of step. */
  ghost function WriteLoses(cfg: Config, v: Volume, h: OpenFileHandle, threshold: nat, start: nat,
                            bytes: Bytes): set<Path> {
    var view := ViewOf(cfg, v, h);
    if !view.InStep() && view.data != [] && view.FlushDue(threshold, start, bytes) then {h.path} else {}
  }

  lemma WrittenKeys(cfg: Config, v: Volume, w: Volume, a: map<nat, OpenFileHandle>, b: map<nat, OpenFileHandle>,
                    s: Files, lost: set<Path>, fh: nat, threshold: nat, start: nat, bytes: Bytes)
    requires Refines(cfg, v, a, s, lost) && OneEach(a)
    requires HandleWritten(cfg, v, w, a, b, fh, threshold, start, bytes)
    ensures OneEach(b) && fh in a && a.Keys == b.Keys
    ensures After(s, Wrote(fh, start, bytes)).open.Keys == b.Keys
  {
    hide PathRefines, HandleRefines, Splices, SameAt, SameSkeleton, Splice, Cached.Write, ViewOf, Cached.WellFormed,
      Cached.InStep, Cached.Logical;
  }

  lemma WriteStep(cfg: Config, v: Volume, w: Volume, a: map<nat, OpenFileHandle>, b: map<nat, OpenFileHandle>,
                  s: Files, lost: set<Path>, fh: nat, threshold: nat, start: nat, bytes: Bytes)
    requires Refines(cfg, v, a, s, lost) && OneEach(a)
    requires HandleWritten(cfg, v, w, a, b, fh, threshold, start, bytes)
    ensures Refines(cfg, w, b, After(s, Wrote(fh, start, bytes)),
                    lost + WriteLoses(cfg, v, a[fh], threshold, start, bytes))
    ensures OneEach(b)
  {
    var t := After(s, Wrote(fh, start, bytes));
    var more := lost + WriteLoses(cfg, v, a[fh], threshold, start, bytes);
    WrittenKeys(cfg, v, w, a, b, s, lost, fh, threshold, start, bytes);
    hide After, WriteLoses, HandleWritten, PathRefines, HandleRefines, OneEach;
    forall p ensures PathRefines(cfg, w, b, t, more, p) {
      assert PathRefines(cfg, v, a, s, lost, p);
      WrittenPath(cfg, v, w, a, b, s, lost, fh, threshold, start, bytes, p);
    }
    forall f | f in b ensures HandleRefines(cfg, w, b[f], f, t, more) {
      assert HandleRefines(cfg, v, a[f], f, s, lost);
      if f == fh {
        WrittenOpenFile(cfg, v, w, a, b, s, lost, fh, threshold, start, bytes);
      } else {
        OtherOpenFile(cfg, v, w, a, b, s, lost, fh, threshold, start, bytes, f);
      }
    }
  }

  lemma WrittenPath(cfg: Config, v: Volume, w: Volume, a: map<nat, OpenFileHandle>, b: map<nat, OpenFileHandle>,
                    s: Files, lost: set<Path>, fh: nat, threshold: nat, start: nat, bytes: Bytes, p: Path)
    requires HandleWritten(cfg, v, w, a, b, fh, threshold, start, bytes) && PathRefines(cfg, v, a, s, lost, p)
    ensures PathRefines(cfg, w, b, After(s, Wrote(fh, start, bytes)),
                        lost + WriteLoses(cfg, v, a[fh], threshold, start, bytes), p)
  {
    hide Cached.Write, Splice, Splices, ViewOf, ReadFile, WriteLoses;
    if p != a[fh].path {
      assert SameAt(cfg, v, w, p);
      if Untouched(b, p) { UntouchedBefore(a, b, fh, p); }
      if p in s.disk { SameRead(cfg, v, w, p); }
    } else {
      assert b[fh].dirty && !Untouched(b, p);
    }
  }

  lemma SameRead(cfg: Config, v: Volume, w: Volume, p: Path)
    requires SameAt(cfg, v, w, p) && p in v.active && v.active[p].kind == File
    ensures ReadFile(cfg, v, p) == ReadFile(cfg, w, p)
  {
  }

  lemma OtherShows(cfg: Config, v: Volume, w: Volume, a: map<nat, OpenFileHandle>, b: map<nat, OpenFileHandle>,
                   fh: nat, f: nat)
    requires OthersSame(cfg, v, w, a, b, fh) && f in a && f != fh
    ensures f in b && b[f] == a[f]
    ensures forall bytes :: ShowsBytes(cfg, v, a[f], bytes) ==> ShowsBytes(cfg, w, b[f], bytes)
  {
  }

  lemma OtherOpenFile(cfg: Config, v: Volume, w: Volume, a: map<nat, OpenFileHandle>, b: map<nat, OpenFileHandle>,
                      s: Files, lost: set<Path>, fh: nat, threshold: nat, start: nat, bytes: Bytes, f: nat)
    requires HandleWritten(cfg, v, w, a, b, fh, threshold, start, bytes) && f in a && f != fh
    requires HandleRefines(cfg, v, a[f], f, s, lost)
    ensures f in b && HandleRefines(cfg, w, b[f], f, After(s, Wrote(fh, start, bytes)),
                                    lost + WriteLoses(cfg, v, a[fh], threshold, start, bytes))
  {
    hide WriteLoses, ShowsBytes, OthersSame, Splices, SameAt, SameSkeleton, Splice, Cached.Write;
    OtherShows(cfg, v, w, a, b, fh, f);
  }

  lemma WrittenOpenFile(cfg: Config, v: Volume, w: Volume, a: map<nat, OpenFileHandle>, b: map<nat, OpenFileHandle>,
                        s: Files, lost: set<Path>, fh: nat, threshold: nat, start: nat, bytes: Bytes)
    requires HandleWritten(cfg, v, w, a, b, fh, threshold, start, bytes)
    requires HandleRefines(cfg, v, a[fh], fh, s, lost)
    ensures HandleRefines(cfg, w, b[fh], fh, After(s, Wrote(fh, start, bytes)),
                          lost + WriteLoses(cfg, v, a[fh], threshold, start, bytes))
  {
    hide Cached.Write, Splice, Cached.InStep, OthersSame, SameAt, ServedBytes, SameSkeleton;
  }

  /** The files a flush gets wrong: those of handles out of step. */
  ghost function FlushLoses(cfg: Config, v: Volume, handles: map<nat, OpenFileHandle>, done: set<nat>): set<Path> {
    set f | f in done && f in handles && !ViewOf(cfg, v, handles[f]).InStep() :: handles[f].path
  }

  lemma SavedOnce(s: Files, files: set<nat>, f: nat)
    requires f in files && f in s.open && s.open[f].path in s.disk
    requires forall g :: g in s.open && g != f ==> s.open[g].path != s.open[f].path
    ensures PutBack(s, files).disk[s.open[f].path] == s.open[f].bytes
  {
    var p := s.open[f].path;
    var g :| g in files && g in s.open && s.open[g].path == p && SavedBytes(s, files, p) == s.open[g].bytes;
  }

  lemma NotSaved(s: Files, files: set<nat>, p: Path)
    requires p in s.disk && forall f :: f in files && f in s.open ==> s.open[f].path != p
    ensures PutBack(s, files).disk[p] == s.disk[p]
  {
  }

  lemma FlushedAt(cfg: Config, v: Volume, w: Volume, a: map<nat, OpenFileHandle>, b: map<nat, OpenFileHandle>,
                  done: set<nat>, f: nat)
    requires AllFlushed(cfg, v, w, a, b, done) && OneEach(a) && f in a
    ensures f in b && b[f] == if f in done then a[f].(dirty := false) else a[f]
    ensures f in done ==> Flushed(cfg, v, w, a[f]) && a[f].dirty
    ensures f !in done ==> SameAt(cfg, v, w, a[f].path)
  {
    hide SameAt, Flushed;
    forall g | g in done ensures g in a && a[g].dirty {}
  }

  lemma FileOnDisk(cfg: Config, v: Volume, handles: map<nat, OpenFileHandle>, s: Files, lost: set<Path>, f: nat)
    requires Refines(cfg, v, handles, s, lost) && f in handles
    ensures HandleRefines(cfg, v, handles[f], f, s, lost)
    ensures handles[f].path in v.active && v.active[handles[f].path].kind == File
  {
    hide ShowsBytes, ReadFile;
    assert PathRefines(cfg, v, handles, s, lost, handles[f].path);
  }

  lemma OpenApart(cfg: Config, v: Volume, handles: map<nat, OpenFileHandle>, s: Files, lost: set<Path>)
    requires Refines(cfg, v, handles, s, lost) && OneEach(handles)
    ensures forall f, g :: f in s.open && g in s.open && f != g ==> s.open[f].path != s.open[g].path
  {
    hide ShowsBytes, PathRefines;
    forall f, g | f in s.open && g in s.open && f != g ensures s.open[f].path != s.open[g].path {
      assert HandleRefines(cfg, v, handles[f], f, s, lost) && HandleRefines(cfg, v, handles[g], g, s, lost);
    }
  }

  lemma SavedKeys(cfg: Config, v: Volume, w: Volume, a: map<nat, OpenFileHandle>, b: map<nat, OpenFileHandle>,
                  s: Files, lost: set<Path>, done: set<nat>)
    requires Refines(cfg, v, a, s, lost) && OneEach(a) && AllFlushed(cfg, v, w, a, b, done)
    ensures OneEach(b) && a.Keys == b.Keys && After(s, Saved(done)).open.Keys == b.Keys
  {
    hide PathRefines, HandleRefines, Flushed, SameAt, SavedBytes, DirtyHandles;
  }

  /** Writing handles back. */
  lemma SaveStep(cfg: Config, v: Volume, w: Volume, a: map<nat, OpenFileHandle>, b: map<nat, OpenFileHandle>,
                 s: Files, lost: set<Path>, done: set<nat>)
    requires Refines(cfg, v, a, s, lost) && OneEach(a) && AllHandlesOk(cfg, v, a)
    requires AllFlushed(cfg, v, w, a, b, done)
    ensures Refines(cfg, w, b, After(s, Saved(done)), lost + FlushLoses(cfg, v, a, done)) && OneEach(b)
  {
    var t, more := After(s, Saved(done)), lost + FlushLoses(cfg, v, a, done);
    hide AllHandlesOk, FlushLoses, After, HandleRefines, PathRefines, FlushShown, AllFlushed, OneEach;
    SavedKeys(cfg, v, w, a, b, s, lost, done);
    DoneShown(cfg, v, w, a, b, done);
    forall f | f in b ensures HandleRefines(cfg, w, b[f], f, t, more) {
      SavedOpenFile(cfg, v, w, a, b, s, lost, done, f);
    }
    forall p ensures PathRefines(cfg, w, b, t, more, p) { SavedPath(cfg, v, w, a, b, s, lost, done, p); }
  }

  lemma SavedOpenFile(cfg: Config, v: Volume, w: Volume, a: map<nat, OpenFileHandle>, b: map<nat, OpenFileHandle>,
                      s: Files, lost: set<Path>, done: set<nat>, f: nat)
    requires Refines(cfg, v, a, s, lost) && OneEach(a) && AllFlushed(cfg, v, w, a, b, done) && f in a
    requires f in done ==> FlushShown(cfg, v, w, a[f])
    ensures f in b && HandleRefines(cfg, w, b[f], f, After(s, Saved(done)), lost + FlushLoses(cfg, v, a, done))
  {
    FlushedAt(cfg, v, w, a, b, done, f);
    FileOnDisk(cfg, v, a, s, lost, f);
    OpenApart(cfg, v, a, s, lost);
    hide AllFlushed, OneEach, SavedBytes, Refines, FlushLoses, ReadFile, Flushed, SameAt;
    if f in done {
      SavedOnce(s, done, f);
    } else {
      NotSaved(s, done, a[f].path);
      KeepsShowing(cfg, v, w, a[f], s.open[f].bytes);
    }
  }

  lemma KeepsShowing(cfg: Config, v: Volume, w: Volume, h: OpenFileHandle, bytes: Bytes)
    requires SameAt(cfg, v, w, h.path) && h.path in v.active && v.active[h.path].kind == File
    ensures ShowsBytes(cfg, v, h, bytes) <==> ShowsBytes(cfg, w, h, bytes)
  {
    SameRead(cfg, v, w, h.path);
  }

  lemma SavedPath(cfg: Config, v: Volume, w: Volume, a: map<nat, OpenFileHandle>, b: map<nat, OpenFileHandle>,
                  s: Files, lost: set<Path>, done: set<nat>, p: Path)
    requires Refines(cfg, v, a, s, lost) && OneEach(a) && AllFlushed(cfg, v, w, a, b, done)
    requires forall f :: f in done ==> f in a && FlushShown(cfg, v, w, a[f])
    ensures PathRefines(cfg, w, b, After(s, Saved(done)), lost + FlushLoses(cfg, v, a, done), p)
  {
    hide SavedBytes, ReadFile, FlushShown, FlushLoses, ViewOf, OneEach, HandleRefines, Flushed;
    if f :| f in done && a[f].path == p {
      SavedDone(cfg, v, w, a, b, s, lost, done, f);
    } else {
      assert SameAt(cfg, v, w, p) && PathRefines(cfg, v, a, s, lost, p);
      SavedElsewhere(cfg, v, w, a, b, s, lost, done, p);
    }
  }

  lemma SavedElsewhere(cfg: Config, v: Volume, w: Volume, a: map<nat, OpenFileHandle>, b: map<nat, OpenFileHandle>,
                       s: Files, lost: set<Path>, done: set<nat>, p: Path)
    requires Refines(cfg, v, a, s, lost) && OneEach(a) && AllFlushed(cfg, v, w, a, b, done)
    requires SameAt(cfg, v, w, p) && PathRefines(cfg, v, a, s, lost, p)
    requires forall f :: f in done ==> f in a && a[f].path != p
    ensures PathRefines(cfg, w, b, After(s, Saved(done)), lost + FlushLoses(cfg, v, a, done), p)
  {
    hide SavedBytes, ReadFile, FlushLoses, ShowsBytes, AllFlushed;
    forall f | f in a ensures f in b && (a[f].path == p ==> b[f] == a[f]) { FlushedAt(cfg, v, w, a, b, done, f); }
    if p in s.disk {
      SameRead(cfg, v, w, p);
      forall f | f in done && f in s.open ensures s.open[f].path != p {
        assert HandleRefines(cfg, v, a[f], f, s, lost);
      }
      NotSaved(s, done, p);
    }
    if Untouched(b, p) { StillUntouched(a, b, p); }
  }

  lemma StillUntouched(a: map<nat, OpenFileHandle>, b: map<nat, OpenFileHandle>, p: Path)
    requires Untouched(b, p) && forall f :: f in a ==> f in b && (a[f].path == p ==> b[f] == a[f])
    ensures Untouched(a, p)
  {
  }

  lemma SavedDone(cfg: Config, v: Volume, w: Volume, a: map<nat, OpenFileHandle>, b: map<nat, OpenFileHandle>,
                  s: Files, lost: set<Path>, done: set<nat>, f: nat)
    requires Refines(cfg, v, a, s, lost) && OneEach(a) && AllFlushed(cfg, v, w, a, b, done) && f in done && f in a
    requires FlushShown(cfg, v, w, a[f])
    ensures PathRefines(cfg, w, b, After(s, Saved(done)), lost + FlushLoses(cfg, v, a, done), a[f].path)
  {
    hide ShowsBytes, PathRefines, SavedBytes, ReadFile, FlushLoses, Flushed, SameAt, FlushShown;
    FlushedAt(cfg, v, w, a, b, done, f);
    FileOnDisk(cfg, v, a, s, lost, f);
    OpenApart(cfg, v, a, s, lost);
    hide AllFlushed, OneEach, Refines;
    SavedOnce(s, done, f);
    DonePath(cfg, v, w, a, b, s, lost, done, f);
  }

  lemma DonePath(cfg: Config, v: Volume, w: Volume, a: map<nat, OpenFileHandle>, b: map<nat, OpenFileHandle>,
                 s: Files, lost: set<Path>, done: set<nat>, f: nat)
    requires f in done && f in a && HandleRefines(cfg, v, a[f], f, s, lost)
    requires Flushed(cfg, v, w, a[f]) && FlushShown(cfg, v, w, a[f])
    requires PutBack(s, done).disk[a[f].path] == s.open[f].bytes
    ensures PathRefines(cfg, w, b, After(s, Saved(done)), lost + FlushLoses(cfg, v, a, done), a[f].path)
  {
    hide SavedBytes, ReadFile, Untouched, FlushShown, ViewOf, Cached.InStep, ShowsBytes;
    if !ViewOf(cfg, v, a[f]).InStep() { assert a[f].path in FlushLoses(cfg, v, a, done); }
    if a[f].path !in lost + FlushLoses(cfg, v, a, done) { DoneReads(cfg, v, w, a[f], s.open[f].bytes); }
  }

  lemma DoneReads(cfg: Config, v: Volume, w: Volume, h: OpenFileHandle, bytes: Bytes)
    requires FlushShown(cfg, v, w, h) && ShowsBytes(cfg, v, h, bytes) && ViewOf(cfg, v, h).InStep()
    ensures ReadFile(cfg, w, h.path) == Ok(bytes)
  {
  }

  /** Closing a clean handle. */
  lemma CloseStep(cfg: Config, v: Volume, handles: map<nat, OpenFileHandle>, s: Files, lost: set<Path>, fh: nat)
    requires Refines(cfg, v, handles, s, lost) && OneEach(handles) && (fh in handles ==> !handles[fh].dirty)
    ensures Refines(cfg, v, handles - {fh}, s.(open := s.open - {fh}), lost) && OneEach(handles - {fh})
  {
    hide ShowsBytes, ReadFile;
    var b, t := handles - {fh}, s.(open := s.open - {fh});
    forall f | f in b ensures HandleRefines(cfg, v, b[f], f, t, lost) {
      assert HandleRefines(cfg, v, handles[f], f, s, lost);
    }
    forall p ensures PathRefines(cfg, v, b, t, lost, p) {
      assert PathRefines(cfg, v, handles, s, lost, p);
      if Untouched(b, p) { assert forall f :: f in handles && handles[f].dirty ==> b[f] == handles[f]; }
    }
  }

  /** Putting back a clean handle's file changes at most a file that is lost. */
  lemma CleanStep(cfg: Config, v: Volume, handles: map<nat, OpenFileHandle>, s: Files, lost: set<Path>, fh: nat)
    requires Refines(cfg, v, handles, s, lost) && OneEach(handles) && (fh in handles ==> !handles[fh].dirty)
    ensures Refines(cfg, v, handles, PutBack(s, {fh}), lost)
  {
    hide ShowsBytes, ReadFile;
    var t := PutBack(s, {fh});
    forall p | p in s.disk ensures p in lost || t.disk[p] == s.disk[p] {
      if fh in s.open && s.open[fh].path == p { assert HandleRefines(cfg, v, handles[fh], fh, s, lost); }
    }
    forall f | f in handles ensures HandleRefines(cfg, v, handles[f], f, t, lost) {
      assert HandleRefines(cfg, v, handles[f], f, s, lost);
    }
    forall p ensures PathRefines(cfg, v, handles, t, lost, p) { assert PathRefines(cfg, v, handles, s, lost, p); }
  }

  /** With all handles clean, the files of the service are those on the disk. */
  lemma AllOnDisk(cfg: Config, v: Volume, handles: map<nat, OpenFileHandle>, s: Files, lost: set<Path>)
    requires Refines(cfg, v, handles, s, lost) && DirtyHandles(handles) == {}
    ensures forall p :: p in v.active && v.active[p].kind == File && p !in lost ==>
              p in s.disk && ReadFile(cfg, v, p) == Ok(s.disk[p])
  {
    hide ReadFile;
    forall p | p in v.active && v.active[p].kind == File && p !in lost
      ensures p in s.disk && ReadFile(cfg, v, p) == Ok(s.disk[p])
    {
      assert PathRefines(cfg, v, handles, s, lost, p);
      forall f | f in handles ensures !handles[f].dirty { assert f !in DirtyHandles(handles); }
    }
  }

  /** The files a step gets wrong: a handle is out of step when it streams or is written back. */
  ghost function LostBy(cfg: Config, v: Volume, handles: map<nat, OpenFileHandle>, threshold: nat,
                        e: Step): set<Path> {
    match e
    case Refused => {}
    case Opened(_, _, _) => {}
    case Wrote(fh, start, bytes) =>
      if fh in handles then WriteLoses(cfg, v, handles[fh], threshold, start, bytes) else {}
    case Saved(files) => FlushLoses(cfg, v, handles, files * DirtyHandles(handles))
    case Closed(fh) => FlushLoses(cfg, v, handles, {fh} * DirtyHandles(handles))
  }

  ghost predicate AllInStep(cfg: Config, v: Volume, handles: map<nat, OpenFileHandle>) {
    forall f :: f in handles ==> ViewOf(cfg, v, handles[f]).InStep()
  }

  // ----- what the nodes know -----

  /** The nodes are the same but for what they cache. */
  ghost predicate SameShape(a: map<nat, FuseNode>, b: map<nat, FuseNode>) {
    a.Keys == b.Keys && forall k :: k in a ==> SameNode(a[k], b[k])
  }

  lemma SameShapeSelf(a: map<nat, FuseNode>)
    ensures SameShape(a, a)
  {
  }

  lemma ShapePaths(a: map<nat, FuseNode>, b: map<nat, FuseNode>)
    requires SameShape(a, b)
    ensures a.Keys == b.Keys && forall k :: k in a ==> a[k].path == b[k].path
  {
  }

  lemma RefreshedShape(a: map<nat, FuseNode>, b: map<nat, FuseNode>, ino: nat, size: Option<nat>, data: Option<Bytes>)
    requires NodeRefreshed(a, b, ino, size, data)
    ensures SameShape(a, b)
  {
  }

  lemma InodesShape(a: map<nat, FuseNode>, b: map<nat, FuseNode>)
    requires SameInodes(a, b)
    ensures SameShape(a, b)
  {
  }

  /** The handle's node is there, on the handle's path; it has size zero under a dirty handle only if the
      handle shows no bytes. */
  ghost predicate HandleKnown(nodes: map<nat, FuseNode>, h: OpenFileHandle) {
    && NodeHasInode(nodes, h.ino) && nodes[h.ino].path == h.path
    && (h.dirty && nodes[h.ino].inode.value.size == 0 ==> h.committedSize == 0 && h.data == [])
  }

  /** A file whose node has size zero is empty, unless a dirty handle is open on it. */
  ghost predicate NodeSized(cfg: Config, v: Volume, handles: map<nat, OpenFileHandle>, node: FuseNode) {
    node.inode.Some? && node.inode.value.size == 0 && Untouched(handles, node.path)
    && node.path in v.active && v.active[node.path].kind == File ==>
      ServedBytes(cfg, v, node.path) == []
  }

  ghost predicate Sized(cfg: Config, v: Volume, nodes: map<nat, FuseNode>, handles: map<nat, OpenFileHandle>) {
    && (forall f :: f in handles ==> HandleKnown(nodes, handles[f]))
    && (forall k :: k in nodes ==> NodeSized(cfg, v, handles, nodes[k]))
  }

  /** No two nodes stand for one path. */
  ghost predicate DistinctPaths(nodes: map<nat, FuseNode>) {
    forall j, k :: j in nodes && k in nodes && nodes[j].path == nodes[k].path ==> j == k
  }

  lemma IndexPaths(c: Catalog, ix: Index)
    requires Indexable(c) && Indexes(c, ix)
    ensures DistinctPaths(ix.nodes)
  {
    hide Indexable, Indexes;
    forall j | j in ix.nodes ensures ix.nodes[j].path in ix.inoByPath && ix.inoByPath[ix.nodes[j].path] == j {
      NodeKnown(c, ix, j);
    }
  }

  lemma OpenSized(cfg: Config, v: Volume, nodes: map<nat, FuseNode>, later: map<nat, FuseNode>,
                  handles: map<nat, OpenFileHandle>, fh: nat, h: OpenFileHandle)
    requires Sized(cfg, v, nodes, handles) && fh !in handles && NodeHasInode(nodes, h.ino)
    requires h.path == nodes[h.ino].path && h.committedSize == 0 && (h.dirty ==> h.data == [])
    requires forall f :: f in handles ==> handles[f].path != h.path
    requires if h.dirty then NodeRefreshed(nodes, later, h.ino, Some(0), Some([])) else later == nodes
    ensures Sized(cfg, v, later, handles[fh := h])
  {
    hide ServedBytes;
    var b := handles[fh := h];
    forall f | f in b ensures HandleKnown(later, b[f]) {
      if f != fh { assert HandleKnown(nodes, handles[f]); }
    }
    forall k | k in later ensures NodeSized(cfg, v, b, later[k]) {
      assert NodeSized(cfg, v, handles, nodes[k]);
      if Untouched(b, later[k].path) {
        UntouchedBefore(handles, b, fh, later[k].path);
        assert b[fh] == h;
      }
    }
  }

  /** What opening a file that is not open yet starts from is the service's file, whatever size its node
      has cached. */
  lemma StartServed(cfg: Config, v: Volume, nodes: map<nat, FuseNode>, handles: map<nat, OpenFileHandle>, ino: nat,
                    truncate: bool)
    requires Sized(cfg, v, nodes, handles) && NodeHasInode(nodes, ino)
    requires nodes[ino].path in v.active && v.active[nodes[ino].path].kind == File
    requires forall f :: f in handles ==> handles[f].path != nodes[ino].path
    ensures var served := ServedBytes(cfg, v, nodes[ino].path);
            (if truncate || nodes[ino].inode.value.size == 0 then [] else served) == if truncate then [] else served
  {
    hide ServedBytes;
    assert NodeSized(cfg, v, handles, nodes[ino]) && Untouched(handles, nodes[ino].path);
  }

  lemma SameServed(cfg: Config, v: Volume, w: Volume, p: Path)
    requires SameAt(cfg, v, w, p) && p in w.active && w.active[p].kind == File
    ensures p in v.active && v.active[p].kind == File && ServedBytes(cfg, v, p) == ServedBytes(cfg, w, p)
  {
    SameRead(cfg, v, w, p);
  }

  lemma WriteSized(cfg: Config, v: Volume, w: Volume, nodes: map<nat, FuseNode>, later: map<nat, FuseNode>,
                   a: map<nat, OpenFileHandle>, b: map<nat, OpenFileHandle>, fh: nat, threshold: nat, start: nat,
                   bytes: Bytes)
    requires Sized(cfg, v, nodes, a) && OneEach(a) && DistinctPaths(nodes)
    requires HandleWritten(cfg, v, w, a, b, fh, threshold, start, bytes)
    requires NodeRefreshed(nodes, later, a[fh].ino, Some(b[fh].committedSize + |b[fh].data|), None)
    ensures Sized(cfg, w, later, b)
  {
    hide ServedBytes, Cached.Write, Splices, ViewOf, SameAt, SameSkeleton, Cached.WellFormed, Cached.InStep,
      Cached.Logical;
    assert HandleKnown(nodes, a[fh]);
    forall f | f in b ensures HandleKnown(later, b[f]) {
      assert HandleKnown(nodes, a[f]);
      if f != fh { OtherShows(cfg, v, w, a, b, fh, f); }
    }
    forall k | k in later ensures NodeSized(cfg, w, b, later[k]) {
      if k != a[fh].ino {
        WrittenElsewhere(cfg, v, w, nodes, a, b, fh, threshold, start, bytes, k);
      } else {
        assert b[fh].dirty && !Untouched(b, later[k].path);
      }
    }
  }

  lemma WrittenElsewhere(cfg: Config, v: Volume, w: Volume, nodes: map<nat, FuseNode>, a: map<nat, OpenFileHandle>,
                         b: map<nat, OpenFileHandle>, fh: nat, threshold: nat, start: nat, bytes: Bytes, k: nat)
    requires Sized(cfg, v, nodes, a) && DistinctPaths(nodes) && k in nodes && fh in a && k != a[fh].ino
    requires HandleWritten(cfg, v, w, a, b, fh, threshold, start, bytes)
    ensures NodeSized(cfg, w, b, nodes[k])
  {
    hide ServedBytes, Cached.Write, Splices, ViewOf, SameSkeleton;
    assert HandleKnown(nodes, a[fh]) && NodeSized(cfg, v, a, nodes[k]);
    var p := nodes[k].path;
    assert SameAt(cfg, v, w, p);
    if p in w.active && w.active[p].kind == File { SameServed(cfg, v, w, p); }
    if Untouched(b, p) { UntouchedBefore(a, b, fh, p); }
  }

  lemma FlushSized(cfg: Config, v: Volume, w: Volume, nodes: map<nat, FuseNode>, later: map<nat, FuseNode>,
                   a: map<nat, OpenFileHandle>, b: map<nat, OpenFileHandle>, done: set<nat>)
    requires Sized(cfg, v, nodes, a) && OneEach(a) && DistinctPaths(nodes)
    requires AllFlushed(cfg, v, w, a, b, done) && SameInodes(nodes, later)
    ensures Sized(cfg, w, later, b)
  {
    hide ServedBytes, Flushed, SameAt;
    forall f | f in b ensures HandleKnown(later, b[f]) {
      assert HandleKnown(nodes, a[f]);
      FlushedAt(cfg, v, w, a, b, done, f);
    }
    forall k | k in later ensures NodeSized(cfg, w, b, later[k]) { FlushedNode(cfg, v, w, nodes, a, b, done, k); }
  }

  lemma FlushedNode(cfg: Config, v: Volume, w: Volume, nodes: map<nat, FuseNode>, a: map<nat, OpenFileHandle>,
                    b: map<nat, OpenFileHandle>, done: set<nat>, k: nat)
    requires Sized(cfg, v, nodes, a) && OneEach(a) && DistinctPaths(nodes) && k in nodes
    requires AllFlushed(cfg, v, w, a, b, done)
    ensures NodeSized(cfg, w, b, nodes[k])
  {
    hide ReadFile, SameAt;
    var p := nodes[k].path;
    if f :| f in done && a[f].path == p {
      FlushedAt(cfg, v, w, a, b, done, f);
      assert HandleKnown(nodes, a[f]);
      assert a[f].ino == k;
    } else {
      assert SameAt(cfg, v, w, p) && NodeSized(cfg, v, a, nodes[k]);
      if p in w.active && w.active[p].kind == File { SameServed(cfg, v, w, p); }
      forall f | f in a ensures f in b && (a[f].path == p ==> b[f] == a[f]) { FlushedAt(cfg, v, w, a, b, done, f); }
      if Untouched(b, p) { StillUntouched(a, b, p); }
    }
  }

  lemma CloseSized(cfg: Config, v: Volume, nodes: map<nat, FuseNode>, handles: map<nat, OpenFileHandle>, fh: nat)
    requires Sized(cfg, v, nodes, handles) && (fh in handles ==> !handles[fh].dirty)
    ensures Sized(cfg, v, nodes, handles - {fh})
  {
    hide ServedBytes;
    var b := handles - {fh};
    forall f | f in b ensures HandleKnown(nodes, b[f]) { assert HandleKnown(nodes, handles[f]); }
    forall k | k in nodes ensures NodeSized(cfg, v, b, nodes[k]) {
      assert NodeSized(cfg, v, handles, nodes[k]);
      if Untouched(b, nodes[k].path) {
        assert forall f :: f in handles && handles[f].dirty ==> f in b && b[f] == handles[f];
      }
    }
  }

  /** All that opening a file has to keep. */
  lemma OpenedFile(cfg: Config, v: Volume, nodes: map<nat, FuseNode>, later: map<nat, FuseNode>,
                   handles: map<nat, OpenFileHandle>, fh: nat, h: OpenFileHandle, truncate: bool, s: Files,
                   lost: set<Path>)
    requires Refines(cfg, v, handles, s, lost) && OneEach(handles) && Sized(cfg, v, nodes, handles) && fh !in handles
    requires NodeHasInode(nodes, h.ino) && h.path == nodes[h.ino].path
    requires h.path in v.active && v.active[h.path].kind == File
    requires forall f :: f in handles ==> handles[f].path != h.path
    requires h.committedSize == 0 && h.dirty == truncate
    requires h.data == if truncate || nodes[h.ino].inode.value.size == 0 then [] else ServedBytes(cfg, v, h.path)
    requires later.Keys == nodes.Keys && forall k :: k in nodes && (k != h.ino || !truncate) ==> later[k] == nodes[k]
    requires truncate ==> Touched(nodes[h.ino], later[h.ino], Some(0), Some([]))
    ensures Refines(cfg, v, handles[fh := h], After(s, Opened(fh, h.path, truncate)), lost)
    ensures OneEach(handles[fh := h]) && Sized(cfg, v, later, handles[fh := h]) && SameShape(nodes, later)
  {
    StartServed(cfg, v, nodes, handles, h.ino, truncate);
    hide Refines, Sized, After, ServedBytes;
    if !truncate { assert later == nodes; }
    OpenStep(cfg, v, handles, s, lost, fh, h, truncate);
    OpenSized(cfg, v, nodes, later, handles, fh, h);
  }

  lemma RefusedStep(cfg: Config, v: Volume, handles: map<nat, OpenFileHandle>, threshold: nat, s: Files,
                    lost: set<Path>)
    ensures After(s, Refused) == s && lost + LostBy(cfg, v, handles, threshold, Refused) == lost
  {
  }

  /** All that a write has to keep. */
  lemma WrittenFile(cfg: Config, v: Volume, w: Volume, nodes: map<nat, FuseNode>, later: map<nat, FuseNode>,
                    a: map<nat, OpenFileHandle>, b: map<nat, OpenFileHandle>, fh: nat, threshold: nat, start: nat,
                    bytes: Bytes, s: Files, lost: set<Path>)
    requires Refines(cfg, v, a, s, lost) && OneEach(a) && Sized(cfg, v, nodes, a) && DistinctPaths(nodes)
    requires HandleWritten(cfg, v, w, a, b, fh, threshold, start, bytes) && fh in a && fh in b
    requires NodeRefreshed(nodes, later, a[fh].ino, Some(b[fh].committedSize + |b[fh].data|), None)
    ensures Refines(cfg, w, b, After(s, Wrote(fh, start, bytes)),
                    lost + LostBy(cfg, v, a, threshold, Wrote(fh, start, bytes)))
    ensures OneEach(b) && Sized(cfg, w, later, b) && SameShape(nodes, later)
  {
    WrittenKeys(cfg, v, w, a, b, s, lost, fh, threshold, start, bytes);
    LostByWrite(cfg, v, a, threshold, fh, start, bytes);
    hide Refines, After, OneEach, Sized, NodeRefreshed, LostBy, WriteLoses, HandleWritten, SameShape;
    RefreshedShape(nodes, later, a[fh].ino, Some(b[fh].committedSize + |b[fh].data|), None);
    WriteStep(cfg, v, w, a, b, s, lost, fh, threshold, start, bytes);
    WriteSized(cfg, v, w, nodes, later, a, b, fh, threshold, start, bytes);
  }

  lemma LostByWrite(cfg: Config, v: Volume, handles: map<nat, OpenFileHandle>, threshold: nat, fh: nat, start: nat,
                    bytes: Bytes)
    requires fh in handles
    ensures LostBy(cfg, v, handles, threshold, Wrote(fh, start, bytes))
      == WriteLoses(cfg, v, handles[fh], threshold, start, bytes)
  {
  }

  /** All that a flush of several handles has to keep. */
  lemma FlushedFiles(cfg: Config, v: Volume, w: Volume, nodes: map<nat, FuseNode>, later: map<nat, FuseNode>,
                     a: map<nat, OpenFileHandle>, b: map<nat, OpenFileHandle>, done: set<nat>, threshold: nat,
                     s: Files, lost: set<Path>)
    requires Refines(cfg, v, a, s, lost) && OneEach(a) && Sized(cfg, v, nodes, a) && DistinctPaths(nodes)
    requires AllHandlesOk(cfg, v, a) && AllFlushed(cfg, v, w, a, b, done) && SameInodes(nodes, later)
    ensures Refines(cfg, w, b, After(s, Saved(done)), lost + LostBy(cfg, v, a, threshold, Saved(done)))
    ensures OneEach(b) && Sized(cfg, w, later, b)
    ensures done == DirtyHandles(a) ==> DirtyHandles(b) == {}
  {
    hide Refines, After, Sized, HandleOk, AllHandlesOk, SameInodes, FlushLoses, Flushed, SameAt;
    assert done <= DirtyHandles(a) && done * DirtyHandles(a) == done;
    assert LostBy(cfg, v, a, threshold, Saved(done)) == FlushLoses(cfg, v, a, done);
    hide LostBy, AllFlushed;
    SaveStep(cfg, v, w, a, b, s, lost, done);
    FlushSized(cfg, v, w, nodes, later, a, b, done);
    if done == DirtyHandles(a) {
      forall f | f in b ensures !b[f].dirty { BackClean(cfg, v, w, a, b, f); }
    }
  }

  lemma BackClean(cfg: Config, v: Volume, w: Volume, a: map<nat, OpenFileHandle>, b: map<nat, OpenFileHandle>, f: nat)
    requires AllFlushed(cfg, v, w, a, b, DirtyHandles(a)) && f in b
    ensures !b[f].dirty
  {
    hide SameAt, Flushed;
    assert f in DirtyHandles(a) <==> a[f].dirty;
  }

  lemma OnlyCleaner(cfg: Config, v: Volume, w: Volume, a: map<nat, OpenFileHandle>, b: map<nat, OpenFileHandle>,
                    done: set<nat>)
    requires AllFlushed(cfg, v, w, a, b, done)
    ensures a.Keys == b.Keys && forall f :: f in b ==> b[f] == a[f].(dirty := b[f].dirty)
  {
    hide SameAt, Flushed;
  }

  /** The flush of one handle is that of a set of one. */
  lemma FlushedAlone(cfg: Config, v: Volume, w: Volume, a: map<nat, OpenFileHandle>, b: map<nat, OpenFileHandle>,
                     fh: nat)
    requires HandleFlushed(cfg, v, w, a, b, fh) && a[fh].dirty
    ensures AllFlushed(cfg, v, w, a, b, {fh})
  {
    hide SameAt, Flushed, FlushShown, ViewOf, Cached.WellFormed, Cached.Logical, Cached.InStep;
    assert forall f :: f in a && f != fh ==> b[f] == a[f] by { assert OthersSame(cfg, v, w, a, b, fh); }
    forall q | forall f :: f in {fh} ==> a[f].path != q ensures SameAt(cfg, v, w, q) { assert fh in {fh}; }
  }

  lemma FlushedFile(cfg: Config, v: Volume, w: Volume, nodes: map<nat, FuseNode>, later: map<nat, FuseNode>,
                    a: map<nat, OpenFileHandle>, b: map<nat, OpenFileHandle>, fh: nat, threshold: nat, s: Files,
                    lost: set<Path>)
    requires Refines(cfg, v, a, s, lost) && OneEach(a) && Sized(cfg, v, nodes, a) && DistinctPaths(nodes)
    requires AllHandlesOk(cfg, v, a) && HandleFlushed(cfg, v, w, a, b, fh) && fh in a && a[fh].dirty
    requires SameInodes(nodes, later)
    ensures Refines(cfg, w, b, After(s, Saved({fh})), lost + LostBy(cfg, v, a, threshold, Saved({fh})))
    ensures OneEach(b) && Sized(cfg, w, later, b)
  {
    hide Refines, After, Sized, HandleOk, AllHandlesOk, SameInodes, LostBy, HandleFlushed, AllFlushed, OneEach;
    FlushedAlone(cfg, v, w, a, b, fh);
    FlushedFiles(cfg, v, w, nodes, later, a, b, {fh}, threshold, s, lost);
  }

  /** Flushing a handle that is clean or unknown. */
  lemma CleanFile(cfg: Config, v: Volume, handles: map<nat, OpenFileHandle>, fh: nat, threshold: nat, s: Files,
                  lost: set<Path>)
    requires Refines(cfg, v, handles, s, lost) && OneEach(handles) && (fh in handles ==> !handles[fh].dirty)
    ensures Refines(cfg, v, handles, After(s, Saved({fh})), lost + LostBy(cfg, v, handles, threshold, Saved({fh})))
  {
    hide Refines, PutBack;
    CleanStep(cfg, v, handles, s, lost, fh);
    NothingDirty(cfg, v, handles, fh);
    assert lost + {} == lost;
  }

  lemma NothingDirty(cfg: Config, v: Volume, handles: map<nat, OpenFileHandle>, fh: nat)
    requires fh in handles ==> !handles[fh].dirty
    ensures FlushLoses(cfg, v, handles, {fh} * DirtyHandles(handles)) == {}
  {
    assert {fh} * DirtyHandles(handles) == {};
  }

  lemma ClosedFile(cfg: Config, v: Volume, nodes: map<nat, FuseNode>, handles: map<nat, OpenFileHandle>, fh: nat,
                   threshold: nat, s: Files, lost: set<Path>)
    requires Refines(cfg, v, handles, s, lost) && OneEach(handles) && Sized(cfg, v, nodes, handles)
    requires fh in handles ==> !handles[fh].dirty
    ensures Refines(cfg, v, handles - {fh}, After(s, Closed(fh)),
                    lost + LostBy(cfg, v, handles, threshold, Closed(fh)))
    ensures OneEach(handles - {fh}) && Sized(cfg, v, nodes, handles - {fh})
  {
    hide Refines, PutBack, Sized, Cached.InStep, ViewOf;
    CleanStep(cfg, v, handles, s, lost, fh);
    assert PutBack(s, {fh}).open == s.open by { PutBackOpen(s, {fh}); }
    CloseStep(cfg, v, handles, PutBack(s, {fh}), lost, fh);
    CloseSized(cfg, v, nodes, handles, fh);
    NothingDirty(cfg, v, handles, fh);
    assert lost + {} == lost;
  }

  lemma PutBackOpen(s: Files, files: set<nat>)
    ensures PutBack(s, files).open == s.open
  {
  }

  /** Closing a dirty handle is flushing it and closing the clean one. */
  lemma ReleasedFile(cfg: Config, v: Volume, w: Volume, nodes: map<nat, FuseNode>, later: map<nat, FuseNode>,
                     a: map<nat, OpenFileHandle>, c: map<nat, OpenFileHandle>, fh: nat, threshold: nat, s: Files,
                     lost: set<Path>)
    requires Refines(cfg, v, a, s, lost) && OneEach(a) && Sized(cfg, v, nodes, a) && DistinctPaths(nodes)
    requires AllHandlesOk(cfg, v, a) && fh in a && a[fh].dirty && SameInodes(nodes, later)
    requires HandleFlushed(cfg, v, w, a, c, fh)
    ensures Refines(cfg, w, c - {fh}, After(s, Closed(fh)), lost + LostBy(cfg, v, a, threshold, Closed(fh)))
    ensures OneEach(c - {fh}) && Sized(cfg, w, later, c - {fh})
  {
    assert fh in c && !c[fh].dirty;
    hide Refines, PutBack, Sized, HandleOk, AllHandlesOk, SameInodes, HandleFlushed, OneEach, FlushLoses, DirtyHandles,
      After, LostBy, DistinctPaths;
    CloseIsSave(cfg, v, a, threshold, s, fh);
    FlushedFile(cfg, v, w, nodes, later, a, c, fh, threshold, s, lost);
    CloseStep(cfg, w, c, PutBack(s, {fh}), lost + LostBy(cfg, v, a, threshold, Closed(fh)), fh);
    CloseSized(cfg, w, later, c, fh);
  }

  lemma CloseIsSave(cfg: Config, v: Volume, handles: map<nat, OpenFileHandle>, threshold: nat, s: Files, fh: nat)
    ensures After(s, Saved({fh})) == PutBack(s, {fh})
    ensures After(s, Closed(fh)) == PutBack(s, {fh}).(open := PutBack(s, {fh}).open - {fh})
    ensures LostBy(cfg, v, handles, threshold, Saved({fh})) == LostBy(cfg, v, handles, threshold, Closed(fh))
  {
    hide FlushLoses;
  }

  // ----- what a run is -----

  /** The request is refused as things stand. */
  ghost predicate RefusedAt(cfg: Config, threshold: nat, a: Scene, request: FileRequest) {
    match request
    case Open(ino, _) => ino !in a.nodes || a.nodes[ino].Kind() != File
    case Write(ino, fh, offset, bytes) =>
      !WriteAnswer(cfg, a.volume, a.handles, threshold, ino, fh, FromOffset(offset), bytes).Written?
    case Flush(fh) => FlushAnswer(cfg, a.volume, a.handles, a.nodes, fh).Err?
    case FlushAll => false
    case Release(fh) => FlushAnswer(cfg, a.volume, a.handles, a.nodes, fh).Err?
  }

  /** The flush of all handles has written these back: all dirty ones, or all up to one that cannot be. */
  ghost predicate FlushedUpTo(cfg: Config, a: Scene, b: Scene, files: set<nat>) {
    && files <= DirtyHandles(a.handles)
    && (files == DirtyHandles(a.handles)
        || exists f :: f in DirtyHandles(a.handles) - files
                       && FlushAnswer(cfg, b.volume, b.handles, b.nodes, f).Err?)
  }

  /** The handle is as it is after an open: it shows the service's file or nothing. */
  ghost predicate NewlyOpen(cfg: Config, a: Scene, h: OpenFileHandle, path: Path, truncate: bool) {
    && h.ino in a.nodes && a.nodes[h.ino].path == path
    && h == OpenFileHandle(h.ino, path, if truncate then [] else ServedBytes(cfg, a.volume, path), 0, truncate)
  }

  /** What the step makes of volume and handles. */
  ghost predicate Brings(cfg: Config, threshold: nat, a: Scene, e: Step, b: Scene) {
    match e
    case Refused => b == a
    case Opened(fh, path, truncate) =>
      && b.volume == a.volume && fh !in a.handles && fh in b.handles
      && b.handles == a.handles[fh := b.handles[fh]] && NewlyOpen(cfg, a, b.handles[fh], path, truncate)
    case Wrote(fh, start, bytes) =>
      HandleWritten(cfg, a.volume, b.volume, a.handles, b.handles, fh, threshold, start, bytes)
    case Saved(files) =>
      AllFlushed(cfg, a.volume, b.volume, a.handles, b.handles, files * DirtyHandles(a.handles))
    case Closed(fh) =>
      && b.handles == a.handles - {fh}
      && AllFlushed(cfg, a.volume, b.volume, a.handles, Cleaned(a.handles, fh), {fh} * DirtyHandles(a.handles))
  }

  /** The handles with one of them marked clean. */
  function Cleaned(handles: map<nat, OpenFileHandle>, fh: nat): map<nat, OpenFileHandle> {
    if fh in handles then handles[fh := handles[fh].(dirty := false)] else handles
  }

  /** The request has been served: refused exactly if it had to be, and otherwise carried out. */
  ghost predicate Follows(cfg: Config, threshold: nat, t: Turn) {
    && Answers(t.before.nodes, t.request, t.step) && SameShape(t.before.nodes, t.after.nodes)
    && (t.step == Refused <==> RefusedAt(cfg, threshold, t.before, t.request))
    && Brings(cfg, threshold, t.before, t.step, t.after)
    && (t.request.FlushAll? ==> FlushedUpTo(cfg, t.before, t.after, t.step.files))
  }

  /** The run serves the first of the requests, one after the other, and leads from one scene to the other. */
  ghost predicate Genuine(cfg: Config, threshold: nat, first: Scene, requests: seq<FileRequest>, run: seq<Turn>,
                          last: Scene) {
    if run == [] then first == last
    else
      var front, t := run[..|run| - 1], run[|run| - 1];
      && |run| <= |requests| && t.request == requests[|run| - 1] && t.after == last && Follows(cfg, threshold, t)
      && Genuine(cfg, threshold, first, requests, front, t.before)
  }

  lemma GenuineNext(cfg: Config, threshold: nat, first: Scene, requests: seq<FileRequest>, run: seq<Turn>, t: Turn)
    requires Genuine(cfg, threshold, first, requests, run, t.before) && Follows(cfg, threshold, t)
    requires |run| < |requests| && t.request == requests[|run|]
    ensures Genuine(cfg, threshold, first, requests, run + [t], t.after)
  {
    hide Follows;
    assert (run + [t])[..|run|] == run;
  }

  /** Requests not yet served make no difference. */
  lemma {:induction false} GenuineSo(cfg: Config, threshold: nat, first: Scene, requests: seq<FileRequest>,
                                     others: seq<FileRequest>, run: seq<Turn>, last: Scene)
    requires Genuine(cfg, threshold, first, requests, run, last)
    requires |run| <= |others| && forall i :: 0 <= i < |run| && i < |requests| ==> others[i] == requests[i]
    ensures Genuine(cfg, threshold, first, others, run, last)
  {
    hide Follows;
    if run == [] {
    } else {
      GenuineSo(cfg, threshold, first, requests, others, run[..|run| - 1], run[|run| - 1].before);
    }
  }

  // ----- what a run gets wrong -----

  /** The files a run gets wrong. */
  ghost function LostAlong(cfg: Config, threshold: nat, run: seq<Turn>): set<Path> {
    if run == [] then {} else
      var t := run[|run| - 1];
      LostAlong(cfg, threshold, run[..|run| - 1]) + LostBy(cfg, t.before.volume, t.before.handles, threshold, t.step)
  }

  lemma LostNext(cfg: Config, threshold: nat, run: seq<Turn>, t: Turn, lost: set<Path>)
    ensures lost + LostAlong(cfg, threshold, run + [t])
      == lost + LostAlong(cfg, threshold, run) + LostBy(cfg, t.before.volume, t.before.handles, threshold, t.step)
  {
    hide LostBy;
    assert (run + [t])[..|run|] == run;
  }

  ghost function OutOfStep(cfg: Config, a: Scene): set<nat> {
    set f | f in a.handles && !ViewOf(cfg, a.volume, a.handles[f]).InStep()
  }

  /** Handles written back in the middle of streaming, with something to hand over. */
  ghost function Spoiled(handles: map<nat, OpenFileHandle>, files: set<nat>): set<nat> {
    set f | f in files && f in handles && handles[f].dirty && handles[f].committedSize > 0 && handles[f].data != []
  }

  ghost function OutBy(out: set<nat>, t: Turn): set<nat> {
    match t.step
    case Refused => out
    case Opened(fh, _, _) => out - {fh}
    case Wrote(_, _, _) => out
    case Saved(files) => out + Spoiled(t.before.handles, files)
    case Closed(fh) => out - {fh}
  }

  /** The handles that are out of step after a run, by the account of its flushes. */
  ghost function OutAfter(out: set<nat>, run: seq<Turn>): set<nat> {
    if run == [] then out else OutBy(OutAfter(out, run[..|run| - 1]), run[|run| - 1])
  }

  lemma OutNext(out: set<nat>, run: seq<Turn>, t: Turn)
    ensures OutAfter(out, run + [t]) == OutBy(OutAfter(out, run), t)
  {
    hide OutBy;
    assert (run + [t])[..|run|] == run;
  }

  /** No handle is written when a flush has taken it out of step. */
  ghost predicate NoneOverrun(out: set<nat>, run: seq<Turn>) {
    run == []
    || var front, t := run[..|run| - 1], run[|run| - 1];
       NoneOverrun(out, front) && (t.step.Wrote? ==> t.step.fh !in OutAfter(out, front))
  }

  lemma NoneOverrunNext(out: set<nat>, run: seq<Turn>, t: Turn)
    ensures NoneOverrun(out, run + [t])
      <==> NoneOverrun(out, run) && (t.step.Wrote? ==> t.step.fh !in OutAfter(out, run))
  {
    hide OutAfter;
    assert (run + [t])[..|run|] == run;
  }

  /** Handles that have been flushed since they were opened. */
  ghost function FlushedSince(run: seq<Turn>): set<nat> {
    if run == [] then {} else
      var before := FlushedSince(run[..|run| - 1]);
      match run[|run| - 1].step
      case Refused => before
      case Opened(fh, _, _) => before - {fh}
      case Wrote(_, _, _) => before
      case Saved(files) => before + files
      case Closed(fh) => before - {fh}
  }

  /** No handle is written again once it has been flushed. */
  ghost predicate NoneReused(run: seq<Turn>) {
    run == []
    || var front, t := run[..|run| - 1], run[|run| - 1];
       NoneReused(front) && (t.step.Wrote? ==> t.step.fh !in FlushedSince(front))
  }

  /** That can be seen from the steps alone, and is enough. */
  lemma {:induction false} NoneReusedSuffices(run: seq<Turn>)
    ensures OutAfter({}, run) <= FlushedSince(run)
    ensures NoneReused(run) ==> NoneOverrun({}, run)
  {
    if run == [] {
    } else {
      NoneReusedSuffices(run[..|run| - 1]);
    }
  }

  lemma RefusedBrings(cfg: Config, threshold: nat, a: Scene)
    ensures Brings(cfg, threshold, a, Refused, a)
  {
  }

  lemma OpenBrings(cfg: Config, threshold: nat, a: Scene, b: Scene, fh: nat, h: OpenFileHandle, truncate: bool)
    requires b.volume == a.volume && fh !in a.handles && b.handles == a.handles[fh := h]
    requires NodeHasInode(a.nodes, h.ino) && h.path == a.nodes[h.ino].path
    requires h.committedSize == 0 && h.dirty == truncate
    requires Sized(cfg, a.volume, a.nodes, a.handles) && forall f :: f in a.handles ==> a.handles[f].path != h.path
    requires h.path in a.volume.active && a.volume.active[h.path].kind == File
    requires h.data
          == if truncate || a.nodes[h.ino].inode.value.size == 0 then [] else ServedBytes(cfg, a.volume, h.path)
    ensures Brings(cfg, threshold, a, Opened(fh, h.path, truncate), b)
  {
    StartServed(cfg, a.volume, a.nodes, a.handles, h.ino, truncate);
  }

  lemma FlushBrings(cfg: Config, threshold: nat, a: Scene, b: Scene, fh: nat)
    requires HandleFlushed(cfg, a.volume, b.volume, a.handles, b.handles, fh) && a.handles[fh].dirty
    ensures Brings(cfg, threshold, a, Saved({fh}), b)
  {
    FlushedAlone(cfg, a.volume, b.volume, a.handles, b.handles, fh);
    assert {fh} * DirtyHandles(a.handles) == {fh};
  }

  lemma CleanBrings(cfg: Config, threshold: nat, a: Scene, b: Scene, fh: nat)
    requires b.volume == a.volume && b.handles == a.handles && (fh in a.handles ==> !a.handles[fh].dirty)
    ensures Brings(cfg, threshold, a, Saved({fh}), b)
  {
    NothingFlushed(cfg, a.volume, a.handles);
    assert {fh} * DirtyHandles(a.handles) == {};
  }

  lemma FlushAllBrings(cfg: Config, threshold: nat, a: Scene, b: Scene, done: set<nat>, stuck: Option<nat>)
    requires AllFlushed(cfg, a.volume, b.volume, a.handles, b.handles, done)
    requires stuck.None? ==> done == DirtyHandles(a.handles)
    requires stuck.Some? ==>
               && stuck.value in DirtyHandles(a.handles) - done
               && FlushAnswer(cfg, b.volume, b.handles, b.nodes, stuck.value).Err?
    ensures Brings(cfg, threshold, a, Saved(done), b) && FlushedUpTo(cfg, a, b, done)
    ensures stuck.None? <==> done == DirtyHandles(a.handles)
  {
    assert done <= DirtyHandles(a.handles);
    hide AllFlushed, DirtyHandles;
    assert done * DirtyHandles(a.handles) == done;
  }

  lemma FlushAllFollows(cfg: Config, threshold: nat, t: Turn)
    requires t.request == FlushAll && t.step.Saved? && SameShape(t.before.nodes, t.after.nodes)
    requires Brings(cfg, threshold, t.before, t.step, t.after) && FlushedUpTo(cfg, t.before, t.after, t.step.files)
    ensures Follows(cfg, threshold, t)
  {
    hide SameShape, Brings, FlushedUpTo;
  }

  lemma ReleaseBrings(cfg: Config, threshold: nat, a: Scene, b: Scene, c: map<nat, OpenFileHandle>, fh: nat)
    requires HandleFlushed(cfg, a.volume, b.volume, a.handles, c, fh) && a.handles[fh].dirty && b.handles == c - {fh}
    ensures Brings(cfg, threshold, a, Closed(fh), b)
  {
    FlushedAlone(cfg, a.volume, b.volume, a.handles, c, fh);
    CleanedOne(cfg, a.volume, b.volume, a.handles, c, fh);
    hide HandleFlushed, AllFlushed, Cleaned;
    assert {fh} * DirtyHandles(a.handles) == {fh};
  }

  lemma CleanedOne(cfg: Config, v: Volume, w: Volume, a: map<nat, OpenFileHandle>, c: map<nat, OpenFileHandle>, fh: nat)
    requires HandleFlushed(cfg, v, w, a, c, fh)
    ensures fh in a && c == Cleaned(a, fh)
  {
    hide SameAt, Flushed, FlushShown, ViewOf, Cached.WellFormed, Cached.Logical, Cached.InStep;
    assert OthersSame(cfg, v, w, a, c, fh);
  }

  lemma CloseBrings(cfg: Config, threshold: nat, a: Scene, b: Scene, fh: nat)
    requires b.volume == a.volume && b.handles == a.handles - {fh} && (fh in a.handles ==> !a.handles[fh].dirty)
    ensures Brings(cfg, threshold, a, Closed(fh), b)
  {
    NothingFlushed(cfg, a.volume, a.handles);
    assert {fh} * DirtyHandles(a.handles) == {};
    assert Cleaned(a.handles, fh) == a.handles;
  }

  /** No request writes to a handle after one that flushes it. */
  ghost predicate NeverReused(requests: seq<FileRequest>) {
    forall i, j :: 0 <= i < j < |requests| && requests[j].Write? ==> !Flushes(requests[i], requests[j].fh)
  }

  predicate Flushes(request: FileRequest, fh: nat) { request.FlushAll? || request == Flush(fh) }

  lemma {:induction false} FlushedOnRequest(cfg: Config, threshold: nat, first: Scene, requests: seq<FileRequest>,
                                            run: seq<Turn>, last: Scene, fh: nat)
    requires Genuine(cfg, threshold, first, requests, run, last) && fh in FlushedSince(run)
    ensures exists i :: 0 <= i < |run| <= |requests| && Flushes(requests[i], fh)
  {
    hide Brings, RefusedAt, FlushedUpTo, SameShape;
    if run == [] {
    } else {
      var front, t := run[..|run| - 1], run[|run| - 1];
      if fh in FlushedSince(front) {
        FlushedOnRequest(cfg, threshold, first, requests, front, t.before, fh);
      } else {
        assert Answers(t.before.nodes, t.request, t.step);
        assert Flushes(requests[|run| - 1], fh);
      }
    }
  }

  /** So that nothing is lost can be seen from the requests, before any of them is made. */
  lemma {:induction false} NeverReusedSuffices(cfg: Config, threshold: nat, first: Scene, requests: seq<FileRequest>,
                                               run: seq<Turn>, last: Scene)
    requires Genuine(cfg, threshold, first, requests, run, last) && NeverReused(requests)
    ensures NoneReused(run)
  {
    hide Brings, RefusedAt, FlushedUpTo, SameShape, FlushedSince;
    if run == [] {
    } else {
      var front, t := run[..|run| - 1], run[|run| - 1];
      NeverReusedSuffices(cfg, threshold, first, requests, front, t.before);
      if t.step.Wrote? {
        assert t.request.Write? && t.request.fh == t.step.fh;
        if t.step.fh in FlushedSince(front) {
          FlushedOnRequest(cfg, threshold, first, requests, front, t.before, t.step.fh);
        }
      }
    }
  }

  lemma NeverReusedMore(requests: seq<FileRequest>, n: nat)
    requires NeverReused(requests) && n <= |requests|
    ensures NeverReused(requests[..n] + [FlushAll])
  {
  }

  // ----- the account is exact -----

  lemma SavedInStep(cfg: Config, v: Volume, w: Volume, a: map<nat, OpenFileHandle>, b: map<nat, OpenFileHandle>,
                    done: set<nat>, f: nat)
    requires AllFlushed(cfg, v, w, a, b, done) && OneEach(a) && AllHandlesOk(cfg, v, a) && f in a
    ensures f in b
    ensures ViewOf(cfg, w, b[f]).InStep()
      <==> ViewOf(cfg, v, a[f]).InStep() && !(f in done && a[f].committedSize > 0 && a[f].data != [])
  {
    FlushedAt(cfg, v, w, a, b, done, f);
    AllHandlesOne(cfg, v, a, f);
    hide AllFlushed, AllHandlesOk, OneEach, SameAt, Flushed, HandleOk, ServedBytes;
    if f in done {
      FlushedView(cfg, v, w, a[f]);
    } else {
      HandleStays(cfg, v, w, a[f]);
    }
  }

  lemma OutBySaved(cfg: Config, v: Volume, w: Volume, a: map<nat, OpenFileHandle>, b: map<nat, OpenFileHandle>,
                   nodes: map<nat, FuseNode>, later: map<nat, FuseNode>, files: set<nat>)
    requires AllFlushed(cfg, v, w, a, b, files * DirtyHandles(a)) && OneEach(a) && AllHandlesOk(cfg, v, a)
    ensures a.Keys == b.Keys
    ensures OutOfStep(cfg, Scene(w, b, later)) == OutOfStep(cfg, Scene(v, a, nodes)) + Spoiled(a, files)
  {
    var x, y := Scene(v, a, nodes), Scene(w, b, later);
    OnlyCleaner(cfg, v, w, a, b, files * DirtyHandles(a));
    hide AllFlushed, AllHandlesOk, OneEach, ViewOf, Cached.InStep;
    forall f ensures f in OutOfStep(cfg, y) <==> f in OutOfStep(cfg, x) + Spoiled(a, files) {
      if f in a { SavedInStep(cfg, v, w, a, b, files * DirtyHandles(a), f); }
    }
  }

  lemma OutByWritten(cfg: Config, v: Volume, w: Volume, a: map<nat, OpenFileHandle>, b: map<nat, OpenFileHandle>,
                     nodes: map<nat, FuseNode>, later: map<nat, FuseNode>, fh: nat, threshold: nat, start: nat,
                     bytes: Bytes)
    requires HandleWritten(cfg, v, w, a, b, fh, threshold, start, bytes)
    ensures OutOfStep(cfg, Scene(w, b, later)) == OutOfStep(cfg, Scene(v, a, nodes))
  {
    hide ViewOf, Cached.InStep, Cached.Write, Cached.WellFormed, Cached.Logical, SameAt, SameSkeleton;
    assert OthersSame(cfg, v, w, a, b, fh);
    assert ViewOf(cfg, w, b[fh]).InStep() <==> ViewOf(cfg, v, a[fh]).InStep();
  }

  /** A turn takes exactly those handles out of step that its flush spoils. */
  lemma OutExact(cfg: Config, threshold: nat, t: Turn)
    requires Brings(cfg, threshold, t.before, t.step, t.after)
    requires OneEach(t.before.handles) && AllHandlesOk(cfg, t.before.volume, t.before.handles)
    ensures OutOfStep(cfg, t.after) == OutBy(OutOfStep(cfg, t.before), t)
  {
    var a, b := t.before, t.after;
    hide ServedBytes, AllFlushed, AllHandlesOk, OneEach, HandleWritten;
    match t.step {
      case Refused =>
      case Opened(fh, _, _) =>
      case Wrote(fh, start, bytes) =>
        OutByWritten(cfg, a.volume, b.volume, a.handles, b.handles, a.nodes, b.nodes, fh, threshold, start, bytes);
      case Saved(files) =>
        OutBySaved(cfg, a.volume, b.volume, a.handles, b.handles, a.nodes, b.nodes, files);
      case Closed(fh) =>
        OutBySaved(cfg, a.volume, b.volume, a.handles, Cleaned(a.handles, fh), a.nodes, b.nodes, {fh});
        OutByClosed(cfg, a, b, fh);
    }
  }

  lemma OutByClosed(cfg: Config, a: Scene, b: Scene, fh: nat)
    requires b.handles == a.handles - {fh}
    requires OutOfStep(cfg, Scene(b.volume, Cleaned(a.handles, fh), b.nodes))
          == OutOfStep(cfg, a) + Spoiled(a.handles, {fh})
    ensures OutOfStep(cfg, b) == OutOfStep(cfg, a) - {fh}
  {
    hide ServedBytes, Cached.InStep;
    var c := Scene(b.volume, Cleaned(a.handles, fh), b.nodes);
    forall f ensures f in OutOfStep(cfg, b) <==> f in OutOfStep(cfg, a) && f != fh {
      if f in b.handles { assert b.handles[f] == c.handles[f]; }
      assert f != fh ==> (f in OutOfStep(cfg, c) <==> f in OutOfStep(cfg, a));
    }
  }

  /** Every handle out of step is clean. */
  ghost predicate OutAreClean(cfg: Config, a: Scene) {
    forall f :: f in OutOfStep(cfg, a) ==> !a.handles[f].dirty
  }

  /** As long as such handles are not written, nothing is lost. */
  lemma NothingOverrun(cfg: Config, threshold: nat, t: Turn)
    requires Brings(cfg, threshold, t.before, t.step, t.after)
    requires OneEach(t.before.handles) && AllHandlesOk(cfg, t.before.volume, t.before.handles)
    requires OutAreClean(cfg, t.before) && (t.step.Wrote? ==> t.step.fh !in OutOfStep(cfg, t.before))
    ensures LostBy(cfg, t.before.volume, t.before.handles, threshold, t.step) == {}
    ensures OutAreClean(cfg, t.after)
  {
    OutExact(cfg, threshold, t);
    NothingLostClean(cfg, threshold, t.before, t.step);
    hide LostBy, OutOfStep, AllHandlesOk, OneEach, ServedBytes;
    forall f | f in OutOfStep(cfg, t.after) ensures f in t.after.handles && !t.after.handles[f].dirty {
      StillClean(cfg, threshold, t, f);
    }
  }

  lemma NothingLostClean(cfg: Config, threshold: nat, a: Scene, e: Step)
    requires OutAreClean(cfg, a) && (e.Wrote? ==> e.fh !in OutOfStep(cfg, a))
    ensures LostBy(cfg, a.volume, a.handles, threshold, e) == {}
  {
    hide ViewOf, Cached.InStep;
    if e.Wrote? && e.fh in a.handles { assert ViewOf(cfg, a.volume, a.handles[e.fh]).InStep(); }
    forall f | f in a.handles && a.handles[f].dirty ensures ViewOf(cfg, a.volume, a.handles[f]).InStep() {
      assert f !in OutOfStep(cfg, a);
    }
  }

  lemma StillClean(cfg: Config, threshold: nat, t: Turn, f: nat)
    requires Brings(cfg, threshold, t.before, t.step, t.after) && OneEach(t.before.handles)
    requires OutAreClean(cfg, t.before) && (t.step.Wrote? ==> t.step.fh !in OutOfStep(cfg, t.before))
    requires f in OutOfStep(cfg, t.after) && OutOfStep(cfg, t.after) == OutBy(OutOfStep(cfg, t.before), t)
    ensures f in t.after.handles && !t.after.handles[f].dirty
  {
    var a, b := t.before, t.after;
    hide ViewOf, Cached.InStep, ServedBytes, AllFlushed, HandleWritten;
    assert f in b.handles;
    match t.step {
      case Refused =>
      case Opened(fh, _, _) =>
      case Wrote(fh, start, bytes) =>
        assert f in OutOfStep(cfg, a) && f != fh;
        OtherKept(cfg, a.volume, b.volume, a.handles, b.handles, fh, threshold, start, bytes, f);
      case Saved(files) =>
        OnlyCleaner(cfg, a.volume, b.volume, a.handles, b.handles, files * DirtyHandles(a.handles));
        FlushedAt(cfg, a.volume, b.volume, a.handles, b.handles, files * DirtyHandles(a.handles), f);
      case Closed(fh) =>
        assert f in OutOfStep(cfg, a) && b.handles[f] == a.handles[f];
    }
  }

  lemma OtherKept(cfg: Config, v: Volume, w: Volume, a: map<nat, OpenFileHandle>, b: map<nat, OpenFileHandle>,
                  fh: nat, threshold: nat, start: nat, bytes: Bytes, f: nat)
    requires HandleWritten(cfg, v, w, a, b, fh, threshold, start, bytes) && f in a && f != fh
    ensures f in b && b[f] == a[f]
  {
    assert OthersSame(cfg, v, w, a, b, fh);
  }

  /** What a run without such a write promises: nothing is lost so far, and nothing is about to be. */
  ghost predicate Spared(cfg: Config, threshold: nat, first: Scene, run: seq<Turn>, last: Scene) {
    OutOfStep(cfg, first) == {} && NoneOverrun({}, run) ==>
      LostAlong(cfg, threshold, run) == {} && OutAreClean(cfg, last)
  }

  lemma NothingRun(cfg: Config, threshold: nat, s: Files, lost: set<Path>, first: Scene, requests: seq<FileRequest>)
    ensures Genuine(cfg, threshold, first, requests, [], first) && AfterAll(s, []) == s
    ensures lost + LostAlong(cfg, threshold, []) == lost && OutAfter(OutOfStep(cfg, first), []) == OutOfStep(cfg, first)
    ensures Spared(cfg, threshold, first, [], first)
  {
    hide OutOfStep;
  }

  lemma NextTurn(cfg: Config, threshold: nat, s: Files, lost: set<Path>, first: Scene, requests: seq<FileRequest>,
                 run: seq<Turn>, t: Turn)
    requires Genuine(cfg, threshold, first, requests, run, t.before) && Follows(cfg, threshold, t)
    requires |run| < |requests| && t.request == requests[|run|]
    requires OneEach(t.before.handles) && AllHandlesOk(cfg, t.before.volume, t.before.handles)
    requires OutOfStep(cfg, t.before) == OutAfter(OutOfStep(cfg, first), run)
    requires Spared(cfg, threshold, first, run, t.before)
    ensures Genuine(cfg, threshold, first, requests, run + [t], t.after)
    ensures AfterAll(s, run + [t]) == After(AfterAll(s, run), t.step)
    ensures lost + LostAlong(cfg, threshold, run + [t])
      == lost + LostAlong(cfg, threshold, run) + LostBy(cfg, t.before.volume, t.before.handles, threshold, t.step)
    ensures OutOfStep(cfg, t.after) == OutAfter(OutOfStep(cfg, first), run + [t])
    ensures Spared(cfg, threshold, first, run + [t], t.after)
  {
    assert Brings(cfg, threshold, t.before, t.step, t.after);
    hide Genuine, Follows, AfterAll, After, LostAlong, LostBy, OutOfStep, OutAfter, OutBy, NoneOverrun, OutAreClean,
      Brings, OneEach, AllHandlesOk;
    GenuineNext(cfg, threshold, first, requests, run, t);
    AfterNext(s, run, t);
    LostNext(cfg, threshold, run, t, lost);
    LostNext(cfg, threshold, run, t, {});
    OutExact(cfg, threshold, t);
    OutNext(OutOfStep(cfg, first), run, t);
    NoneOverrunNext({}, run, t);
    if OutOfStep(cfg, first) == {} && NoneOverrun({}, run + [t]) { NothingOverrun(cfg, threshold, t); }
  }

  lemma SparedRun(cfg: Config, threshold: nat, lost: set<Path>, first: Scene, run: seq<Turn>, last: Scene)
    requires Spared(cfg, threshold, first, run, last)
    ensures AllInStep(cfg, first.volume, first.handles) && NoneOverrun({}, run) ==>
              lost + LostAlong(cfg, threshold, run) == lost
  {
    hide ViewOf, Cached.InStep, LostAlong, NoneOverrun, OutAreClean;
    if AllInStep(cfg, first.volume, first.handles) {
      assert OutOfStep(cfg, first) == {};
      assert lost + {} == lost;
    }
  }

  // ----- the start of a run -----

  /** The files of a volume. */
  ghost function DiskOf(cfg: Config, v: Volume): map<Path, Bytes> {
    map p | p in v.active && v.active[p].kind == File :: ServedBytes(cfg, v, p)
  }

  /** Before anything is opened, the disk is what the service has. */
  lemma FreshRefines(cfg: Config, v: Volume)
    requires Faithful(cfg, v)
    ensures Refines(cfg, v, map[], Files(DiskOf(cfg, v), map[]), {}) && OneEach(map[])
  {
    var s := Files(DiskOf(cfg, v), map[]);
    forall p ensures PathRefines(cfg, v, map[], s, {}, p) {
      if p in s.disk { assert Volumes.Stored(cfg, v.blocks, v.active[p]); }
    }
  }

  /** Right after the maps have been built, all nodes have the sizes of their files. */
  lemma FreshSized(cfg: Config, v: Volume, ix: Index)
    requires Faithful(cfg, v) && Indexable(v.active) && Indexes(v.active, ix)
    requires RawCached(v.active, v.blocks, ix.nodes)
    ensures Sized(cfg, v, ix.nodes, map[])
  {
    hide Faithful, Indexable, Indexes, RawCached, NodeSized;
    forall k | k in ix.nodes ensures NodeSized(cfg, v, map[], ix.nodes[k]) { FreshNode(cfg, v, ix, k); }
  }

  lemma FreshNode(cfg: Config, v: Volume, ix: Index, k: nat)
    requires Faithful(cfg, v) && Indexable(v.active) && Indexes(v.active, ix)
    requires RawCached(v.active, v.blocks, ix.nodes) && k in ix.nodes
    ensures NodeSized(cfg, v, map[], ix.nodes[k])
  {
    hide PathsMatch, ChildrenMatch, Proper;
    if k != ROOT_INO {
      assert k in Inos(v.active);
      var p :| p in v.active && v.active[p].id + 1 == k;
      assert CachedAt(v.active[p], v.blocks, ix.nodes) && Volumes.Stored(cfg, v.blocks, v.active[p]);
      assert Mirrors(ix.nodes[k], v.active[p]);
    }
  }
}
