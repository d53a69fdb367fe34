/** What the directory calls of a mount promise, said in terms of the catalog: listings, their
    delivery in pages, and when a change of the tree is refused. */
module Directories {
  import opened ByteStrings
  import opened Wrappers
  import opened Sorting
  import opened Paths
  import opened Volumes
  import opened Storage
  import opened Changes
  import opened Renaming
  import opened Services
  import opened FuseIndex
  import opened TreeShape
  import opened VirtualNodes

  datatype Errno = EEXIST | EINVAL | EIO | EISDIR | ENOENT | ENOTDIR | ENOTEMPTY | EROFS

  datatype Reply<+T> = Done(value: T) | Failure(errno: Errno)

  datatype DirEntry = DirEntry(ino: nat, kind: Kind, name: string)

  // ----- listings -----

  ghost predicate Shows(c: Catalog, d: Path, e: DirEntry) {
    var p := Join(d, e.name);
    p in c && ParentPath(p) == d && BaseName(p) == e.name && e.ino == c[p].id + 1 && e.kind == c[p].kind
  }

  /** The listing shows every entry of the directory exactly once, in the order of their names. */
  ghost predicate ListsDirectory(c: Catalog, d: Path, s: seq<DirEntry>) {
    && (forall i :: 0 <= i < |s| ==> Shows(c, d, s[i]))
    && (forall i, j :: 0 <= i < j < |s| ==> Less(s[i].name, s[j].name))
    && (forall p :: p in c && ParentPath(p) == d ==> exists i :: 0 <= i < |s| && Join(d, s[i].name) == p)
  }

  lemma BehindDots(dot: DirEntry, up: DirEntry, rest: seq<DirEntry>)
    ensures var all := [dot] + [up] + rest; all[0] == dot && all[1] == up && all[2..] == rest
  {
  }

  lemma InFrontOfLast(entries: seq<DirEntry>, last: DirEntry)
    requires |entries| >= 2
    ensures var all := entries + [last];
            && all[0] == entries[0] && all[1] == entries[1] && |all| == |entries| + 1
            && all[2..|all| - 1] == entries[2..] && all[|all| - 1..] == [last]
  {
  }

  /** There is only one such listing. */
  lemma ListingUnique(c: Catalog, d: Path, s: seq<DirEntry>, t: seq<DirEntry>)
    requires (forall p :: p in c ==> Proper(p)) && ListsDirectory(c, d, s) && ListsDirectory(c, d, t)
    ensures s == t
  {
    PathOrder();
    var a, b := Names(s), Names(t);
    SameNames(c, d, s, t);
    SameNames(c, d, t, s);
    AscendingUnique(Less, a, b);
    forall i | 0 <= i < |s| ensures s[i] == t[i] {
      assert a[i] == b[i] && Shows(c, d, s[i]) && Shows(c, d, t[i]);
    }
  }

  ghost function Names(s: seq<DirEntry>): seq<string> { seq(|s|, i requires 0 <= i < |s| => s[i].name) }

  /** A name shown by one listing is shown by the other. */
  lemma SameName(c: Catalog, d: Path, s: seq<DirEntry>, t: seq<DirEntry>, i: nat) returns (j: nat)
    requires ListsDirectory(c, d, s) && ListsDirectory(c, d, t) && i < |s|
    ensures j < |t| && t[j].name == s[i].name
  {
    hide Join, ParentPath, BaseName, Less;
    assert Shows(c, d, s[i]);
    j :| 0 <= j < |t| && Join(d, t[j].name) == Join(d, s[i].name);
    assert Shows(c, d, t[j]);
  }

  lemma SameNames(c: Catalog, d: Path, s: seq<DirEntry>, t: seq<DirEntry>)
    requires ListsDirectory(c, d, s) && ListsDirectory(c, d, t)
    ensures forall x :: x in Names(s) ==> x in Names(t)
  {
    hide ListsDirectory;
    forall x | x in Names(s) ensures x in Names(t) {
      var i :| 0 <= i < |s| && s[i].name == x;
      var j := SameName(c, d, s, t, i);
      assert Names(t)[j] == x;
    }
  }

  /** The number `..` stands for. */
  function UpIno(c: Catalog, d: Path): nat {
    if d != "/" && ParentPath(d) in c then c[ParentPath(d)].id + 1 else ROOT_INO
  }

  /** The whole listing of the directory `d` with number `ino`; the root has the virtual directory
      as its last entry. */
  ghost predicate WholeListing(c: Catalog, d: Path, ino: nat, s: seq<DirEntry>) {
    var last := [DirEntry(SNAPSHOTS_DIR_INO, Directory, ".snapshots")];
    && |s| >= (if ino == ROOT_INO then 3 else 2)
    && s[0] == DirEntry(ino, Directory, ".") && s[1] == DirEntry(UpIno(c, d), Directory, "..")
    && (if ino == ROOT_INO then ListsDirectory(c, d, s[2..|s| - 1]) && s[|s| - 1..] == last
        else ListsDirectory(c, d, s[2..]))
  }

  lemma WholeListingUnique(c: Catalog, d: Path, ino: nat, s: seq<DirEntry>, t: seq<DirEntry>)
    requires (forall p :: p in c ==> Proper(p)) && WholeListing(c, d, ino, s) && WholeListing(c, d, ino, t)
    ensures s == t
  {
    assert s == s[..2] + s[2..] && t == t[..2] + t[2..];
    if ino == ROOT_INO {
      ListingUnique(c, d, s[2..|s| - 1], t[2..|t| - 1]);
      assert s[2..] == s[2..|s| - 1] + s[|s| - 1..] && t[2..] == t[2..|t| - 1] + t[|t| - 1..];
    } else {
      ListingUnique(c, d, s[2..], t[2..]);
    }
  }

  ghost predicate HasName(s: seq<DirEntry>, name: string) { exists i :: 0 <= i < |s| && s[i].name == name }

  /** A listing has a name exactly when the joined path is active. */
  lemma NameListedOnce(c: Catalog, d: Path, s: seq<DirEntry>, name: string)
    requires ListsDirectory(c, d, s) && d != "" && d[0] == '/' && ProperName(name)
    ensures Join(d, name) in c <==> HasName(s, name)
  {
    SplitJoin(d, name);
    hide Less, ParentPath, BaseName;
    if Join(d, name) in c {
      var i :| 0 <= i < |s| && Join(d, s[i].name) == Join(d, name);
      assert Shows(c, d, s[i]);
    }
    if i :| 0 <= i < |s| && s[i].name == name { assert Shows(c, d, s[i]); }
  }

  ghost predicate DistinctNames(s: seq<DirEntry>) { forall i, j :: 0 <= i < j < |s| ==> s[i].name != s[j].name }

  lemma NamesAscend(c: Catalog, d: Path, s: seq<DirEntry>)
    requires ListsDirectory(c, d, s)
    ensures DistinctNames(s)
  {
    PathOrder();
    hide Shows;
    forall i, j | 0 <= i < j < |s| ensures s[i].name != s[j].name { assert Less(s[i].name, s[j].name); }
  }

  /** The part of a whole listing that shows entries of the catalog. */
  function Inner(ino: nat, s: seq<DirEntry>): seq<DirEntry>
    requires |s| >= (if ino == ROOT_INO then 3 else 2)
  {
    if ino == ROOT_INO then s[2..|s| - 1] else s[2..]
  }

  lemma WholeParts(c: Catalog, d: Path, ino: nat, s: seq<DirEntry>)
    requires WholeListing(c, d, ino, s)
    ensures |s| >= (if ino == ROOT_INO then 3 else 2) && ListsDirectory(c, d, Inner(ino, s))
    ensures s[0].name == "." && s[1].name == ".." && (ino == ROOT_INO ==> s[|s| - 1].name == ".snapshots")
    ensures |s| == |Inner(ino, s)| + (if ino == ROOT_INO then 3 else 2) && s[2..|Inner(ino, s)| + 2] == Inner(ino, s)
  {
    hide ListsDirectory;
    assert ino == ROOT_INO ==> s[|s| - 1] == s[|s| - 1..][0];
  }

  /** A whole listing has no name twice exactly when no entry of the catalog carries one of the names
      the mount adds; at the root that includes a real entry `.snapshots`. */
  lemma NamesDistinct(c: Catalog, d: Path, ino: nat, s: seq<DirEntry>)
    requires WholeListing(c, d, ino, s) && d != "" && d[0] == '/'
    ensures DistinctNames(s) <==>
              Join(d, ".") !in c && Join(d, "..") !in c && (ino == ROOT_INO ==> Join(d, ".snapshots") !in c)
  {
    hide WholeListing, ListsDirectory, Join, HasName, DistinctNames;
    WholeParts(c, d, ino, s);
    var inner := Inner(ino, s);
    hide Inner;
    NamesAscend(c, d, inner);
    NameListedOnce(c, d, inner, ".");
    NameListedOnce(c, d, inner, "..");
    NameListedOnce(c, d, inner, ".snapshots");
    AddedNames(inner, s, ino == ROOT_INO);
  }

  /** Two names in front of a listing and perhaps one behind it leave the names distinct exactly when the
      listing does not have them. */
  lemma AddedNames(inner: seq<DirEntry>, s: seq<DirEntry>, root: bool)
    requires |s| == |inner| + (if root then 3 else 2) && s[2..|inner| + 2] == inner && DistinctNames(inner)
    requires s[0].name == "." && s[1].name == ".." && (root ==> s[|s| - 1].name == ".snapshots")
    ensures DistinctNames(s) <==>
              !HasName(inner, ".") && !HasName(inner, "..") && (root ==> !HasName(inner, ".snapshots"))
  {
    forall k | 0 <= k < |inner| ensures s[k + 2] == inner[k] { assert s[2..|inner| + 2][k] == s[k + 2]; }
    if HasName(inner, ".") {
      var i :| 0 <= i < |inner| && inner[i].name == ".";
      assert s[0].name == s[i + 2].name;
    } else if HasName(inner, "..") {
      var i :| 0 <= i < |inner| && inner[i].name == "..";
      assert s[1].name == s[i + 2].name;
    } else if root && HasName(inner, ".snapshots") {
      var i :| 0 <= i < |inner| && inner[i].name == ".snapshots";
      assert s[i + 2].name == s[|s| - 1].name;
    } else {
      AddedDistinct(inner, s, root);
    }
  }

  lemma AddedDistinct(inner: seq<DirEntry>, s: seq<DirEntry>, root: bool)
    requires |s| == |inner| + (if root then 3 else 2) && DistinctNames(inner)
    requires forall k :: 0 <= k < |inner| ==> s[k + 2] == inner[k]
    requires s[0].name == "." && s[1].name == ".." && (root ==> s[|s| - 1].name == ".snapshots")
    requires !HasName(inner, ".") && !HasName(inner, "..") && (root ==> !HasName(inner, ".snapshots"))
    ensures DistinctNames(s)
  {
    forall i, j | 0 <= i < j < |s| ensures s[i].name != s[j].name {
      if 2 <= i < |inner| + 2 { assert inner[i - 2] == s[i]; }
      if 2 <= j < |inner| + 2 { assert inner[j - 2] == s[j]; }
    }
  }

  /** A name the index has for a directory leads to an entry of the catalog, through both maps. */
  lemma NameShown(c: Catalog, ix: Index, d: Path, name: string)
    requires Indexable(c) && Indexes(c, ix) && d in ix.children && name in ix.children[d]
    ensures var p := Join(d, name);
            && p in ix.inoByPath && ix.inoByPath[p] in ix.nodes
            && Shows(c, d, DirEntry(ix.inoByPath[p], ix.nodes[ix.inoByPath[p]].Kind(), name))
  {
    hide Join, ParentPath, BaseName;
    var p :| p in c && ParentPath(p) == d && BaseName(p) == name;
    ProperParent(p);
    assert Mirrors(ix.nodes[c[p].id + 1], c[p]);
  }

  lemma NameListed(c: Catalog, ix: Index, d: Path, p: Path)
    requires Indexable(c) && Indexes(c, ix) && p in c && ParentPath(p) == d
    ensures d in ix.children && BaseName(p) in ix.children[d] && Join(d, BaseName(p)) == p
  {
    ProperParent(p);
    hide Join, ParentPath, BaseName;
  }

  /** The node of a number is the root or stands for an entry of the catalog. */
  lemma NodeKnown(c: Catalog, ix: Index, ino: nat)
    requires Indexable(c) && Indexes(c, ix) && ino in ix.nodes
    ensures var n := ix.nodes[ino];
            && n.path in ix.children && n.path in ix.inoByPath && ix.inoByPath[n.path] == ino
            && n.Kind() == (if ino == ROOT_INO then Directory else if n.path in c then c[n.path].kind else File)
            && (if ino == ROOT_INO then n.path == "/" && n.parentPath == "/"
                else n.path in c && c[n.path].id + 1 == ino && n.parentPath == ParentPath(n.path))
            && IsDirectory(c, n.path) == (n.Kind() == Directory)
  {
    hide ParentPath, Proper, ChildNames;
    if ino == ROOT_INO {
      assert "/" in ix.children by { assert HasEntry(c, "/"); }
    } else {
      assert ino in Inos(c);
      var p :| p in c && c[p].id + 1 == ino;
      EntryKnown(c, ix, p);
    }
  }

  lemma EntryKnown(c: Catalog, ix: Index, p: Path)
    requires Indexable(c) && Indexes(c, ix) && p in c
    ensures c[p].id + 1 in ix.nodes
    ensures var n := ix.nodes[c[p].id + 1];
            && n.path == p && p != "/" && n.parentPath == ParentPath(p) && n.Kind() == c[p].kind
            && p in ix.children && p in ix.inoByPath && ix.inoByPath[p] == c[p].id + 1
  {
    hide ParentPath, Proper, ChildNames;
    assert Mirrors(ix.nodes[c[p].id + 1], c[p]) && c[p].path == p;
    assert p in ix.children by { assert HasEntry(c, p); }
  }

  /** What the index has for `..`. */
  lemma UpKnown(c: Catalog, ix: Index, ino: nat)
    requires Indexable(c) && Indexes(c, ix) && ino in ix.nodes
    ensures var n := ix.nodes[ino];
            UpIno(c, n.path) ==
              if ino != ROOT_INO && n.parentPath in ix.inoByPath then ix.inoByPath[n.parentPath] else ROOT_INO
  {
    NodeKnown(c, ix, ino);
    hide NodesMatch, ChildrenMatch, ParentPath, Proper;
  }

  lemma RealInSpan(v: Volume, ix: Index, ino: nat)
    requires Sound(v) && Indexes(v.active, ix) && ino in ix.nodes
    ensures 1 <= ino <= v.nextInode + 1
  {
    hide ChildrenMatch, PathsMatch;
    if ino != ROOT_INO {
      assert ino in Inos(v.active);
      var p :| p in v.active && v.active[p].id + 1 == ino;
    }
  }

  /** A path with a number is the root's or an entry's. */
  lemma PathKnown(c: Catalog, ix: Index, p: Path)
    requires Indexable(c) && Indexes(c, ix) && p != "/"
    ensures p in ix.inoByPath <==> p in c
    ensures p in c ==> ix.inoByPath[p] == c[p].id + 1 && ix.inoByPath[p] in ix.nodes
    ensures p in c ==> var n := ix.nodes[ix.inoByPath[p]]; n.path == p && n.Kind() == c[p].kind
  {
    if p in c { assert Mirrors(ix.nodes[c[p].id + 1], c[p]); }
  }

  /** The index shows a directory empty exactly when nothing lies in it. */
  ghost predicate Vacant(c: Catalog, d: Path) { forall p :: p in c ==> ParentPath(p) != d }

  lemma EmptyIsVacant(c: Catalog, ix: Index, d: Path)
    requires Indexable(c) && Indexes(c, ix) && d in c
    ensures d in ix.children && (ix.children[d] == {} <==> Vacant(c, d))
  {
    hide ParentPath, BaseName;
    assert HasEntry(c, d);
    assert ix.children[d] == ChildNames(c, d);
    if p :| p in c && ParentPath(p) == d { assert BaseName(p) in ChildNames(c, d); }
  }

  /** The place for a name in a directory is a proper path that splits into the two again. */
  lemma PlaceOf(c: Catalog, ix: Index, parent: nat, name: string)
    requires Indexable(c) && Indexes(c, ix) && parent in ix.nodes && ProperName(name)
    ensures var d := ix.nodes[parent].path; var p := Join(d, name);
            Proper(p) && ParentPath(p) == d && BaseName(p) == name && p != "/"
  {
    NodeKnown(c, ix, parent);
    SplitJoin(ix.nodes[parent].path, name);
  }

  // ----- pages -----

  /** Up to which entry a page with room for `room` gets, starting at `from`. */
  function PageEnd(entries: seq<DirEntry>, cost: DirEntry -> nat, from: nat, room: nat): (end: nat)
    ensures from <= end && (from <= |entries| ==> end <= |entries|)
    ensures end > from <==> from < |entries| && cost(entries[from]) <= room
    decreases |entries| - from
  {
    if from < |entries| && cost(entries[from]) <= room
    then PageEnd(entries, cost, from + 1, room - cost(entries[from]))
    else from
  }

  /** Fill a reply from the offset on until an entry does not fit. */
  method FillPage(entries: seq<DirEntry>, cost: DirEntry -> nat, offset: nat, room: nat) returns (page: seq<DirEntry>)
    ensures offset <= |entries| ==> page == entries[offset..PageEnd(entries, cost, offset, room)]
    ensures offset > |entries| ==> page == []
  {
    page := [];
    var index: nat, left: nat := offset, room;
    while index < |entries| && cost(entries[index]) <= left
      invariant offset <= index && (offset <= |entries| ==> index <= |entries|)
      invariant page == if offset <= |entries| then entries[offset..index] else []
      invariant PageEnd(entries, cost, offset, room) == PageEnd(entries, cost, index, left)
      decreases |entries| - index
    {
      page := page + [entries[index]];
      left := left - cost(entries[index]);
      index := index + 1;
    }
  }

  /** What a reader gets who resumes behind the last entry received until a page comes empty; the
      n-th call has room for `rooms(n)`. */
  function Paged(entries: seq<DirEntry>, cost: DirEntry -> nat, rooms: nat -> nat, call: nat, from: nat): seq<DirEntry>
    decreases |entries| - from
  {
    var end := PageEnd(entries, cost, from, rooms(call));
    if end == from || from >= |entries| then []
    else entries[from..end] + Paged(entries, cost, rooms, call + 1, end)
  }

  /** Calls the reader makes, the empty one at the end included. */
  function PageCalls(entries: seq<DirEntry>, cost: DirEntry -> nat, rooms: nat -> nat, call: nat, from: nat): nat
    decreases |entries| - from
  {
    var end := PageEnd(entries, cost, from, rooms(call));
    if end == from || from >= |entries| then 1
    else 1 + PageCalls(entries, cost, rooms, call + 1, end)
  }

  /** Room for any single entry in every call is enough to receive the whole listing, nothing
      twice and nothing missing, after at most one call more than there are entries. */
  lemma {:induction false} PagedIsAll(entries: seq<DirEntry>, cost: DirEntry -> nat, rooms: nat -> nat,
                                      call: nat, from: nat)
    requires from <= |entries|
    requires forall n, i :: 0 <= i < |entries| ==> cost(entries[i]) <= rooms(n)
    ensures Paged(entries, cost, rooms, call, from) == entries[from..]
    ensures PageCalls(entries, cost, rooms, call, from) <= |entries| - from + 1
    decreases |entries| - from
  {
    if from == |entries| {
    } else {
      var end := PageEnd(entries, cost, from, rooms(call));
      PagedIsAll(entries, cost, rooms, call + 1, end);
      assert entries[from..] == entries[from..end] + entries[end..];
    }
  }

  /** Whatever the room, what is received is a start of the listing, in order. */
  lemma {:induction false} PagedIsPrefix(entries: seq<DirEntry>, cost: DirEntry -> nat, rooms: nat -> nat,
                                         call: nat, from: nat)
    requires from <= |entries|
    ensures Paged(entries, cost, rooms, call, from) <= entries[from..]
    decreases |entries| - from
  {
    var end := PageEnd(entries, cost, from, rooms(call));
    if end == from {
    } else {
      PagedIsPrefix(entries, cost, rooms, call + 1, end);
      assert entries[from..] == entries[from..end] + entries[end..];
    }
  }

  /** A reader has these entries after some calls; it stops when the last page was empty. */
  ghost predicate Received(entries: seq<DirEntry>, cost: DirEntry -> nat, rooms: nat -> nat, calls: nat,
                           got: seq<DirEntry>, finished: bool) {
    && |got| <= |entries| && got == entries[..|got|]
    && Paged(entries, cost, rooms, 0, 0) == got + (if finished then [] else Paged(entries, cost, rooms, calls, |got|))
    && PageCalls(entries, cost, rooms, 0, 0)
       == calls + if finished then 0 else PageCalls(entries, cost, rooms, calls, |got|)
  }

  lemma FirstReceived(entries: seq<DirEntry>, cost: DirEntry -> nat, rooms: nat -> nat, page: seq<DirEntry>)
    requires page == entries[0..PageEnd(entries, cost, 0, rooms(0))]
    ensures Received(entries, cost, rooms, 1, page, page == [])
  {
  }

  lemma PageGoesOn(entries: seq<DirEntry>, cost: DirEntry -> nat, rooms: nat -> nat, call: nat,
                   got: seq<DirEntry>, page: seq<DirEntry>)
    requires |got| <= |entries| && got == entries[..|got|]
    requires page == entries[|got|..PageEnd(entries, cost, |got|, rooms(call))]
    ensures |got + page| <= |entries| && got + page == entries[..|got + page|]
    ensures Paged(entries, cost, rooms, call, |got|)
      == page + if page == [] then [] else Paged(entries, cost, rooms, call + 1, |got + page|)
    ensures PageCalls(entries, cost, rooms, call, |got|)
      == 1 + if page == [] then 0 else PageCalls(entries, cost, rooms, call + 1, |got + page|)
  {
  }

  lemma NextReceived(entries: seq<DirEntry>, cost: DirEntry -> nat, rooms: nat -> nat, calls: nat,
                     got: seq<DirEntry>, page: seq<DirEntry>)
    requires Received(entries, cost, rooms, calls, got, false)
    requires page == entries[|got|..PageEnd(entries, cost, |got|, rooms(calls))]
    ensures |got + page| <= |entries| && Received(entries, cost, rooms, calls + 1, got + page, page == [])
  {
    hide Paged, PageCalls, PageEnd;
    PageGoesOn(entries, cost, rooms, calls, got, page);
  }

  lemma AllReceived(entries: seq<DirEntry>, cost: DirEntry -> nat, rooms: nat -> nat, calls: nat, got: seq<DirEntry>)
    requires Received(entries, cost, rooms, calls, got, true)
    ensures got == Paged(entries, cost, rooms, 0, 0) && calls == PageCalls(entries, cost, rooms, 0, 0)
    ensures got <= entries
    ensures (forall n, i :: 0 <= i < |entries| ==> cost(entries[i]) <= rooms(n)) ==>
              got == entries && calls <= |entries| + 1
  {
    if forall n, i :: 0 <= i < |entries| ==> cost(entries[i]) <= rooms(n) { PagedIsAll(entries, cost, rooms, 0, 0); }
  }

  // ----- refusals -----

  /** Why a rename within the catalog is refused. */
  ghost function MoveRefusal(c: Catalog, from: Path, to: Path, noReplace: bool): Option<Errno> {
    if from !in c then Some(ENOENT)
    else if to !in c then None
    else if noReplace then Some(EEXIST)
    else if c[from].kind == Directory && c[to].kind != Directory then Some(ENOTDIR)
    else if c[from].kind != Directory && c[to].kind == Directory then Some(EISDIR)
    else if c[to].kind == Directory && !Vacant(c, to) then Some(ENOTEMPTY)
    else None
  }

  /** The mode a new entry gets: what is asked for without the masked bits, or a default. */
  function RequestedMode(mode: bv32, umask: bv32, otherwise: bv32): bv32 {
    if mode == 0 then otherwise else mode & !umask & 0xFFF
  }

  // ----- changes of the tree -----

  lemma MovesSomething(c: Catalog, from: Path, to: Path)
    requires Indexable(c) && MoveRefusal(c, from, to, false).None?
    ensures from in c && Proper(from) && from != "/"
  {
    hide Proper;
  }

  lemma SoundIndexable(v: Volume)
    requires Sound(v) && AllProper(v.active)
    ensures Indexable(v.active)
  {
    forall p | p in v.active ensures p != "/" { ProperParent(p); }
    hide Proper;
  }

  lemma IndexableProper(c: Catalog)
    requires Indexable(c)
    ensures AllProper(c)
  {
    hide Proper;
  }

  lemma NewInode(v: Volume, w: Volume, path: Path)
    requires Sound(w) && path in w.active && path !in v.active && w.active == v.active[path := w.active[path]]
    ensures w.active[path].path == path && w.active[path].id > 0 && Lacks(v.active, w.active[path].id)
  {
    forall p | p in v.active ensures v.active[p].id != w.active[path].id {
      assert p in w.active && w.active[p] == v.active[p];
    }
  }

  /** A new entry in a directory keeps the tree, and registering it keeps the index. */
  lemma EntryAdded(cfg: Config, v: Volume, w: Volume, ix: Index, path: Path, node: Node)
    requires Indexable(v.active) && Indexes(v.active, ix) && TreeShaped(v.active) && Sound(w)
    requires Assigned(cfg, v, w, path, node) && path !in v.active && Proper(path)
    requires IsDirectory(v.active, ParentPath(path))
    ensures TreeShaped(w.active) && Indexable(w.active)
    ensures Indexes(w.active, Registered(ix, FuseNode(path, ParentPath(path), Some(w.active[path]), [])))
  {
    hide Indexable, Indexes, TreeShaped, Sound, Proper, ParentPath, BaseName, Faithful, Tree, Trash, Lacks,
      IsDirectory, Registered;
    var n := w.active[path];
    NewInode(v, w, path);
    IndexableProper(v.active);
    AddedTree(v.active, n);
    RegisterIndexes(v.active, ix, n, FuseNode(path, ParentPath(path), Some(n), []));
  }

  lemma FileVacant(c: Catalog, p: Path)
    requires TreeShaped(c) && p in c && c[p].kind != Directory && p != "/"
    ensures Vacant(c, p)
  {
    forall q | q in c ensures ParentPath(q) != p { assert IsDirectory(c, ParentPath(q)); }
  }

  lemma VacantRemovable(c: Catalog, p: Path)
    requires AllProper(c) && TreeShaped(c) && p in c && Vacant(c, p)
    ensures Removable(c, p) && TreeShaped(c - {p})
  {
    TrashedTree(c, p);
    ProperParent(p);
    hide Proper, ParentPath;
    assert IsDirectory(c, ParentPath(p));
    assert HasEntry(c - {p}, ParentPath(p));
  }

  /** Soft-deleting an entry nothing lies in keeps the tree, and unregistering it keeps the index. */
  lemma EntryRemoved(v: Volume, ix: Index, path: Path)
    requires Indexable(v.active) && Indexes(v.active, ix) && TreeShaped(v.active)
    requires path in v.active && Vacant(v.active, path)
    ensures TreeShaped(Trashed(v, path).active) && Indexable(Trashed(v, path).active)
    ensures Indexes(Trashed(v, path).active, Unregistered(ix, v.active[path].id + 1))
  {
    hide Indexable, Indexes, TreeShaped, AllProper, Vacant, Removable, Unregistered;
    IndexableProper(v.active);
    VacantRemovable(v.active, path);
    SomeIndexable(v.active, v.active - {path});
    UnregisterExact(v.active, ix, path);
  }

  lemma BaseTree(v: Volume, to: Path)
    requires TreeShaped(v.active) && AllProper(v.active) && Proper(to)
    requires to in v.active ==> v.active[to].kind != Directory || Vacant(v.active, to)
    requires IsDirectory(v.active, ParentPath(to))
    ensures var base := RenameBase(v, to).active;
            && TreeShaped(base) && AllProper(base) && IsDirectory(base, ParentPath(to))
            && to !in base && forall p :: p in v.active && p != to ==> p in base
  {
    hide Proper, TreeShaped, ParentPath, BaseName, Join;
    ProperParent(to);
    if to in v.active {
      if v.active[to].kind != Directory { FileVacant(v.active, to); }
      TrashedTree(v.active, to);
    }
  }

  /** A rename that is not refused finds its way clear and leaves a tree. */
  lemma EntryMoved(v: Volume, from: Path, to: Path, now: nat, r: Catalog)
    requires TreeShaped(v.active) && AllProper(v.active)
    requires MoveRefusal(v.active, from, to, false).None? && from != to
    requires Proper(to) && IsDirectory(v.active, ParentPath(to)) && !InSubtree(from, ParentPath(to))
    ensures var base := RenameBase(v, to).active;
            && Clear(base, SubtreeMoves(base, from, to))
            && (Relocated(base, SubtreeMoves(base, from, to), now, r) ==> TreeShaped(r) && AllProper(r))
  {
    hide TreeShaped, AllProper, Relocated, Clear, ParentPath, BaseName, Join, SubtreeMoves, InSubtree, Vacant,
      IsDirectory, RenameBase;
    var base := RenameBase(v, to).active;
    BaseTree(v, to);
    ProperParent(to);
    assert to != "";
    RenameClear(base, from, to);
    if Relocated(base, SubtreeMoves(base, from, to), now, r) { RenameTree(base, from, to, now, r); }
  }
}
