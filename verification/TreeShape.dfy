/** Catalogs in which every entry lies in a directory, and what renames do to them. */
module TreeShape {
  import opened Wrappers
  import opened Paths
  import opened Volumes
  import opened Renaming
  import opened FuseIndex

  /** `d` is a directory to put entries in. */
  predicate IsDirectory(c: Catalog, d: Path) { d == "/" || (d in c && c[d].kind == Directory) }

  ghost predicate TreeShaped(c: Catalog) { forall p :: p in c ==> IsDirectory(c, ParentPath(p)) }

  ghost predicate AllProper(c: Catalog) { forall p :: p in c ==> Proper(p) }

  lemma AbsoluteParent(p: Path)
    requires Proper(p)
    ensures ParentPath(p) != "" && ParentPath(p)[0] == '/' && |ParentPath(p)| < |p|
  {
    assert Join(ParentPath(p), BaseName(p)) == p;
  }

  /** Where nothing is, nothing lies below. */
  lemma {:induction false} NothingBelow(c: Catalog, top: Path, q: Path)
    requires TreeShaped(c) && AllProper(c) && top !in c && top != "/" && top != "" && Below(top, q)
    ensures q !in c
    decreases |q|
  {
    if q in c {
      ParentInSubtree(top, q);
      AbsoluteParent(q);
      assert IsDirectory(c, ParentPath(q));
      if ParentPath(q) != top { NothingBelow(c, top, ParentPath(q)); }
    }
  }

  lemma ChildInSubtree(top: Path, p: Path)
    requires Proper(p) && InSubtree(top, ParentPath(p)) && top != "/"
    ensures InSubtree(top, p) && (ParentPath(p) != "/" ==> Below(top, p))
  {
    var d := ParentPath(p);
    assert Join(d, BaseName(p)) == p;
    if Below(top, d) { assert d == top + "/" + d[|top| + 1..]; }
  }

  lemma TargetOutside(from: Path, to: Path)
    requires Proper(from) && Proper(to) && from != to && from != "/" && !InSubtree(from, ParentPath(to))
    ensures !InSubtree(from, to)
  {
    if Below(from, to) { ParentInSubtree(from, to); }
  }

  /** Taking out an entry without children keeps the tree. */
  lemma TrashedTree(c: Catalog, p: Path)
    requires TreeShaped(c) && forall q :: q in c ==> ParentPath(q) != p
    ensures TreeShaped(c - {p})
  {
    forall q | q in c - {p} ensures IsDirectory(c - {p}, ParentPath(q)) { assert IsDirectory(c, ParentPath(q)); }
  }

  lemma AddedTree(c: Catalog, n: Inode)
    requires TreeShaped(c) && AllProper(c) && n.path !in c && Proper(n.path) && IsDirectory(c, ParentPath(n.path))
    ensures TreeShaped(c[n.path := n]) && AllProper(c[n.path := n])
  {
    hide ParentPath, Proper;
    forall q | q in c ensures IsDirectory(c[n.path := n], ParentPath(q)) {
      assert IsDirectory(c, ParentPath(q));
      StillDirectory(c, n, ParentPath(q));
    }
    StillDirectory(c, n, ParentPath(n.path));
  }

  lemma StillDirectory(c: Catalog, n: Inode, d: Path)
    requires IsDirectory(c, d) && n.path !in c
    ensures IsDirectory(c[n.path := n], d)
  {
  }

  /** In a tree, a rename to a free place finds nothing in its way. */
  lemma RenameClear(c: Catalog, from: Path, to: Path)
    requires TreeShaped(c) && AllProper(c) && to !in c && to != "/" && to != ""
    ensures Clear(c, SubtreeMoves(c, from, to))
  {
    var mv := SubtreeMoves(c, from, to);
    forall p | p in mv ensures mv[p] !in c {
      MovedBack(from, to, p);
      if mv[p] != to { NothingBelow(c, to, mv[p]); }
    }
  }

  /** And the result is a tree again: what moved lies where its directory moved to. */
  lemma RenameTree(c: Catalog, from: Path, to: Path, now: nat, r: Catalog)
    requires TreeShaped(c) && AllProper(c) && Relocated(c, SubtreeMoves(c, from, to), now, r)
    requires from in c && Proper(to) && !InSubtree(from, ParentPath(to)) && IsDirectory(c, ParentPath(to))
    ensures TreeShaped(r) && AllProper(r)
  {
    var mv := SubtreeMoves(c, from, to);
    forall q | q in r ensures Proper(q) && IsDirectory(r, ParentPath(q)) {
      if q in c && q !in mv {
        StayingEntry(c, from, to, now, r, q);
      } else {
        var p :| p in mv && mv[p] == q;
        MovingEntry(c, from, to, now, r, p);
      }
    }
  }

  lemma StayingEntry(c: Catalog, from: Path, to: Path, now: nat, r: Catalog, q: Path)
    requires TreeShaped(c) && AllProper(c) && Relocated(c, SubtreeMoves(c, from, to), now, r)
    requires from in c && q in c && !InSubtree(from, q)
    ensures Proper(q) && IsDirectory(r, ParentPath(q))
  {
    assert IsDirectory(c, ParentPath(q)) && Proper(from);
    AbsoluteParent(from);
    if InSubtree(from, ParentPath(q)) { ChildInSubtree(from, q); }
    DirectoryStays(c, SubtreeMoves(c, from, to), now, r, ParentPath(q));
  }

  lemma MovingEntry(c: Catalog, from: Path, to: Path, now: nat, r: Catalog, p: Path)
    requires TreeShaped(c) && AllProper(c) && Relocated(c, SubtreeMoves(c, from, to), now, r)
    requires from in c && Proper(to) && !InSubtree(from, ParentPath(to)) && IsDirectory(c, ParentPath(to))
    requires p in c && InSubtree(from, p)
    ensures Proper(Moved(from, to, p)) && IsDirectory(r, ParentPath(Moved(from, to, p)))
  {
    if p == from {
      assert Moved(from, to, p) == to;
      DirectoryStays(c, SubtreeMoves(c, from, to), now, r, ParentPath(to));
    } else {
      assert Proper(from) && Proper(p);
      AbsoluteParent(from);
      MovedParent(from, to, p);
      assert IsDirectory(c, ParentPath(p));
      DirectoryMoves(c, SubtreeMoves(c, from, to), now, r, ParentPath(p));
    }
  }

  lemma DirectoryStays(c: Catalog, mv: Moves, now: nat, r: Catalog, d: Path)
    requires Relocated(c, mv, now, r) && IsDirectory(c, d) && d !in mv
    ensures IsDirectory(r, d)
  {
  }

  lemma DirectoryMoves(c: Catalog, mv: Moves, now: nat, r: Catalog, d: Path)
    requires Relocated(c, mv, now, r) && IsDirectory(c, d) && d in mv && d != "/"
    ensures IsDirectory(r, mv[d])
  {
  }
}
