/** Moving a subtree of the catalog entry by entry, as `rename_entry` does, against the move as a whole. */
module Renaming {
  import opened ByteStrings
  import opened Sorting
  import opened Storage
  import opened Paths
  import opened Volumes

  /** Where every moved entry goes. */
  type Moves = map<Path, Path>

  function At(n: Inode, path: Path, now: nat): Inode {
    n.(path := path, stamps := n.stamps.(changed := now))
  }

  /** One step of the loop: take the entry out and insert it under its new path. */
  function MoveOne(c: Catalog, mv: Moves, now: nat, p: Path): Catalog
    requires p in mv
  {
    if p in c then (c - {p})[mv[p] := At(c[p], mv[p], now)] else c
  }

  ghost predicate AllIn(mv: Moves, paths: seq<Path>) { forall i :: 0 <= i < |paths| ==> paths[i] in mv }

  ghost predicate NoRepeats(paths: seq<Path>) {
    forall i, j :: 0 <= i < j < |paths| ==> paths[i] != paths[j]
  }

  function Elements(paths: seq<Path>): set<Path> { set p | p in paths }

  lemma ElementsAppend(paths: seq<Path>, p: Path)
    ensures Elements(paths + [p]) == Elements(paths) + {p}
  {
  }

  lemma NoElements()
    ensures Elements([]) == {}
  {
  }

  lemma FreshElement(paths: seq<Path>, i: nat)
    requires NoRepeats(paths) && i < |paths|
    ensures paths[i] !in Elements(paths[..i])
  {
  }

  lemma ElementsPush(paths: seq<Path>, i: nat)
    requires i < |paths|
    ensures Elements(paths[..i + 1]) == Elements(paths[..i]) + {paths[i]}
  {
    assert paths[..i + 1] == paths[..i] + [paths[i]];
  }

  /** What is picked in the order of a listing is in that order. */
  lemma PickedInOrder(paths: seq<Path>, i: nat, picked: seq<Path>)
    requires Ascending(Less, paths) && i < |paths| && Ascending(Less, picked)
    requires Elements(picked) <= Elements(paths[..i])
    ensures Ascending(Less, picked + [paths[i]])
  {
    forall k | 0 <= k < |picked| ensures Less(picked[k], paths[i]) {
      assert picked[k] in Elements(picked);
      var j :| 0 <= j < i && paths[j] == picked[k];
    }
  }

  /** The whole loop, in listing order. */
  ghost function MoveAll(c: Catalog, mv: Moves, now: nat, paths: seq<Path>): Catalog
    requires AllIn(mv, paths)
  {
    if paths == [] then c
    else MoveOne(MoveAll(c, mv, now, paths[..|paths| - 1]), mv, now, paths[|paths| - 1])
  }

  lemma NextMove(c: Catalog, mv: Moves, now: nat, paths: seq<Path>, i: nat)
    requires AllIn(mv, paths) && i < |paths|
    ensures AllIn(mv, paths[..i]) && AllIn(mv, paths[..i + 1])
    ensures MoveAll(c, mv, now, paths[..i + 1]) == MoveOne(MoveAll(c, mv, now, paths[..i]), mv, now, paths[i])
  {
    assert paths[..i + 1][..i] == paths[..i];
  }

  /** No two entries move to one place. */
  ghost predicate Injective(mv: Moves) {
    forall p, q :: p in mv && q in mv && mv[p] == mv[q] ==> p == q
  }

  /** Nothing moves onto an entry. */
  ghost predicate Clear(c: Catalog, mv: Moves) {
    forall p :: p in mv ==> mv[p] !in c
  }

  /** The move as a whole: what does not move stays, what moves is found at its new place, and
      nothing else exists. */
  ghost predicate Relocated(c: Catalog, mv: Moves, now: nat, r: Catalog) {
    && (forall p :: p in c && p !in mv ==> p in r && r[p] == c[p])
    && (forall p :: p in mv ==> (p in c && mv[p] in r && r[mv[p]] == At(c[p], mv[p], now)))
    && (forall q :: q in r ==> (q in c && q !in mv) || exists p :: p in mv && mv[p] == q)
  }

  /** The same with only the entries `done` moved so far. */
  ghost predicate PartlyRelocated(c: Catalog, mv: Moves, now: nat, done: set<Path>, r: Catalog) {
    && (forall p :: p in c && p !in done ==> p in r && r[p] == c[p])
    && (forall p :: p in done && p in mv ==> (p in c && mv[p] in r && r[mv[p]] == At(c[p], mv[p], now)))
    && (forall q :: q in r ==> (q in c && q !in done) || exists p :: p in done && p in mv && mv[p] == q)
  }

  /** Every target is free when its turn comes: nothing is there, or what was there has been moved
      away before. */
  ghost predicate FreeInTurn(c: Catalog, mv: Moves, paths: seq<Path>)
    requires AllIn(mv, paths)
  {
    forall i :: 0 <= i < |paths| ==> FreeAt(c, mv, paths, i)
  }

  ghost predicate FreeAt(c: Catalog, mv: Moves, paths: seq<Path>, i: nat)
    requires AllIn(mv, paths) && i < |paths|
  {
    mv[paths[i]] == paths[i] || mv[paths[i]] !in c || mv[paths[i]] in paths[..i]
  }

  lemma ClearInTurn(c: Catalog, mv: Moves, paths: seq<Path>)
    requires Clear(c, mv) && AllIn(mv, paths)
    ensures FreeInTurn(c, mv, paths)
  {
  }

  lemma FreeInFront(c: Catalog, mv: Moves, paths: seq<Path>, k: nat)
    requires AllIn(mv, paths) && k <= |paths| && forall i :: 0 <= i < k ==> FreeAt(c, mv, paths, i)
    ensures AllIn(mv, paths[..k]) && FreeInTurn(c, mv, paths[..k])
  {
    forall i | 0 <= i < k ensures FreeAt(c, mv, paths[..k], i) {
      assert FreeAt(c, mv, paths, i) && paths[..k][..i] == paths[..i];
    }
  }

  /** An entry that is still there has not been moved onto. */
  lemma NotYetReached(c: Catalog, mv: Moves, front: seq<Path>, p: Path)
    requires AllIn(mv, front) && FreeInTurn(c, mv, front) && p in c && p !in front
    ensures forall x :: x in Elements(front) ==> mv[x] != p
  {
    forall x | x in Elements(front) ensures mv[x] != p {
      var k :| 0 <= k < |front| && front[k] == x;
      assert FreeAt(c, mv, front, k);
      if mv[x] in front[..k] { assert mv[x] in front; }
    }
  }

  lemma MoveOnePartly(c: Catalog, mv: Moves, now: nat, done: set<Path>, r: Catalog, p: Path)
    requires Injective(mv) && done <= mv.Keys && p in mv && p in c && p !in done
    requires mv[p] == p || mv[p] !in c || mv[p] in done
    requires PartlyRelocated(c, mv, now, done, r) && forall x :: x in done ==> mv[x] != p
    ensures PartlyRelocated(c, mv, now, done + {p}, MoveOne(r, mv, now, p))
  {
    var s := MoveOne(r, mv, now, p);
    assert p in r && r[p] == c[p];
    assert forall q :: q in s <==> q == mv[p] || (q in r && q != p);
    forall q | q in s ensures (q in c && q !in done + {p}) || exists x :: x in done + {p} && x in mv && mv[x] == q {
      if q == mv[p] { assert p in done + {p}; } else {
        assert q in r;
        if !(q in c && q !in done) { var x :| x in done && x in mv && mv[x] == q; assert x in done + {p}; }
      }
    }
  }

  lemma {:induction false} MoveAllPartly(c: Catalog, mv: Moves, now: nat, paths: seq<Path>)
    requires Injective(mv) && mv.Keys <= c.Keys
    requires AllIn(mv, paths) && NoRepeats(paths) && FreeInTurn(c, mv, paths)
    ensures PartlyRelocated(c, mv, now, Elements(paths), MoveAll(c, mv, now, paths))
  {
    if paths == [] {
    } else {
      var front, p := paths[..|paths| - 1], paths[|paths| - 1];
      FreeInFront(c, mv, paths, |front|);
      assert NoRepeats(front) && paths == front + [p] && FreeAt(c, mv, paths, |front|);
      MoveAllPartly(c, mv, now, front);
      assert p in mv && p !in front;
      ElementsAppend(front, p);
      NotYetReached(c, mv, front, p);
      hide FreeInTurn, PartlyRelocated;
      MoveOnePartly(c, mv, now, Elements(front), MoveAll(c, mv, now, front), p);
    }
  }

  /** When every target is free in its turn, the loop moves the entries as a whole: none overwrites
      another, neither an entry that stays nor one still waiting to be moved. */
  lemma MoveAllRelocates(c: Catalog, mv: Moves, now: nat, paths: seq<Path>)
    requires Injective(mv) && mv.Keys <= c.Keys
    requires NoRepeats(paths) && (forall p :: p in paths <==> p in mv) && AllIn(mv, paths)
    requires FreeInTurn(c, mv, paths)
    ensures Relocated(c, mv, now, MoveAll(c, mv, now, paths))
  {
    MoveAllPartly(c, mv, now, paths);
  }

  ghost predicate FromIn(c: Catalog, n: Inode) {
    exists p :: p in c && c[p].(path := n.path, stamps := n.stamps) == n
  }

  /** Whatever is in the way, the loop keeps keys and ids in order and brings in no new id. */
  lemma {:induction false} MoveAllKeeps(c: Catalog, mv: Moves, now: nat, paths: seq<Path>)
    requires Keyed(c) && DistinctIds(c) && AllIn(mv, paths)
    ensures var r := MoveAll(c, mv, now, paths);
            Keyed(r) && DistinctIds(r) && forall q :: q in r ==> FromIn(c, r[q])
  {
    if paths == [] {
      forall p | p in c ensures FromIn(c, c[p]) {
        assert c[p].(path := c[p].path, stamps := c[p].stamps) == c[p];
      }
    } else {
      var front, last := paths[..|paths| - 1], paths[|paths| - 1];
      assert AllIn(mv, front);
      MoveAllKeeps(c, mv, now, front);
      var r := MoveAll(c, mv, now, front);
      if last in r {
        var n := At(r[last], mv[last], now);
        var p :| p in c && c[p].(path := r[last].path, stamps := r[last].stamps) == r[last];
        assert c[p].(path := n.path, stamps := n.stamps) == n;
      }
    }
  }

  lemma {:induction false} LossIsFinal(c: Catalog, mv: Moves, now: nat, paths: seq<Path>, k: nat, id: nat)
    requires AllIn(mv, paths) && k <= |paths|
    requires Lacks(MoveAll(c, mv, now, paths[..k]), id)
    ensures Lacks(MoveAll(c, mv, now, paths), id)
    decreases |paths|
  {
    if k == |paths| {
      assert paths[..k] == paths;
    } else {
      var front := paths[..|paths| - 1];
      assert front[..k] == paths[..k] && AllIn(mv, front);
      LossIsFinal(c, mv, now, front, k, id);
    }
  }

  /** Before the first taken target's turn, both entries are still at their places. */
  lemma AtItsTurn(c: Catalog, mv: Moves, now: nat, paths: seq<Path>, i: nat)
    requires Keyed(c) && DistinctIds(c) && Injective(mv) && mv.Keys <= c.Keys
    requires AllIn(mv, paths) && NoRepeats(paths) && i < |paths|
    requires (forall k :: 0 <= k < i ==> FreeAt(c, mv, paths, k)) && !FreeAt(c, mv, paths, i)
    ensures AllIn(mv, paths[..i])
    ensures var r, p := MoveAll(c, mv, now, paths[..i]), paths[i];
            DistinctIds(r) && p in r && mv[p] in c && mv[p] in r && r[mv[p]] == c[mv[p]] && mv[p] != p
  {
    FreeInFront(c, mv, paths, i);
    MoveAllPartly(c, mv, now, paths[..i]);
    assert paths[i] !in Elements(paths[..i]) && mv[paths[i]] !in Elements(paths[..i]);
    MoveAllKeeps(c, mv, now, paths[..i]);
  }

  /** The first entry that is moved onto before it has left is gone for good. */
  lemma CoveredIdIsLost(c: Catalog, mv: Moves, now: nat, paths: seq<Path>, i: nat)
    requires Keyed(c) && DistinctIds(c) && Injective(mv) && mv.Keys <= c.Keys
    requires AllIn(mv, paths) && NoRepeats(paths) && i < |paths|
    requires (forall k :: 0 <= k < i ==> FreeAt(c, mv, paths, k)) && !FreeAt(c, mv, paths, i)
    ensures mv[paths[i]] in c && Lacks(MoveAll(c, mv, now, paths), c[mv[paths[i]]].id)
  {
    AtItsTurn(c, mv, now, paths, i);
    hide DistinctIds, Lacks, Keyed, Injective;
    var front := paths[..i + 1];
    assert front[..|front| - 1] == paths[..i] && AllIn(mv, front);
    MoveOntoLoses(MoveAll(c, mv, now, paths[..i]), mv, now, paths[i]);
    LossIsFinal(c, mv, now, paths, i + 1, c[mv[paths[i]]].id);
  }

  lemma MoveOntoLoses(r: Catalog, mv: Moves, now: nat, p: Path)
    requires DistinctIds(r) && p in mv && p in r && mv[p] in r && mv[p] != p
    ensures Lacks(MoveOne(r, mv, now, p), r[mv[p]].id)
  {
  }

  /** A rename loses no entry exactly when every target is free in its turn. */
  lemma MoveConserves(c: Catalog, mv: Moves, now: nat, paths: seq<Path>)
    requires Keyed(c) && DistinctIds(c) && Injective(mv) && mv.Keys <= c.Keys
    requires NoRepeats(paths) && (forall p :: p in paths <==> p in mv) && AllIn(mv, paths)
    ensures FreeInTurn(c, mv, paths) <==> forall id :: Owns(c, id) ==> Owns(MoveAll(c, mv, now, paths), id)
  {
    var r := MoveAll(c, mv, now, paths);
    if FreeInTurn(c, mv, paths) {
      MoveAllRelocates(c, mv, now, paths);
      forall id | Owns(c, id) ensures Owns(r, id) {
        var p :| p in c && c[p].id == id;
        var q := if p in mv then mv[p] else p;
        assert q in r && r[q].id == id;
      }
    } else {
      var i := FirstTaken(c, mv, paths, |paths|);
      CoveredIdIsLost(c, mv, now, paths, i);
      assert Owns(c, c[mv[paths[i]]].id);
    }
  }

  lemma {:induction false} FirstTaken(c: Catalog, mv: Moves, paths: seq<Path>, k: nat) returns (i: nat)
    requires AllIn(mv, paths) && k <= |paths| && exists j :: 0 <= j < k && !FreeAt(c, mv, paths, j)
    ensures i < k && !FreeAt(c, mv, paths, i) && forall j :: 0 <= j < i ==> FreeAt(c, mv, paths, j)
  {
    if exists j :: 0 <= j < k - 1 && !FreeAt(c, mv, paths, j) {
      i := FirstTaken(c, mv, paths, k - 1);
    } else {
      i := k - 1;
    }
  }

  /** A rename touches no block, so whatever is in the way, all entries that are left stay readable
      and checkpointed. */
  lemma MoveKeeps(cfg: Config, saved: map<nat, Bytes>, v: Volume, w: Volume, mv: Moves, now: nat, paths: seq<Path>)
    requires Sound(v) && AllIn(mv, paths) && w == v.(active := MoveAll(v.active, mv, now, paths))
    ensures Sound(w)
    ensures Faithful(cfg, v) ==> Faithful(cfg, w)
    ensures Covers(saved, v) ==> Covers(saved, w)
  {
    MoveAllKeeps(v.active, mv, now, paths);
    MoveKeepsSound(v, w);
    hide Sound, MoveAll, FromIn, Keyed, DistinctIds;
    MoveKeepsContent(cfg, saved, v, w);
  }

  lemma MoveKeepsContent(cfg: Config, saved: map<nat, Bytes>, v: Volume, w: Volume)
    requires w == v.(active := w.active) && forall q :: q in w.active ==> FromIn(v.active, w.active[q])
    ensures Faithful(cfg, v) ==> Faithful(cfg, w)
    ensures Covers(saved, v) ==> Covers(saved, w)
  {
    if Faithful(cfg, v) {
      forall q | q in w.active ensures Stored(cfg, w.blocks, w.active[q]) {
        assert FromIn(v.active, w.active[q]);
        var p :| p in v.active && v.active[p].(path := w.active[q].path, stamps := w.active[q].stamps) == w.active[q];
        assert Stored(cfg, v.blocks, v.active[p]);
      }
    }
    if Covers(saved, v) {
      forall q | q in w.active ensures exists p :: p in v.active && v.active[p].id == w.active[q].id {
        assert FromIn(v.active, w.active[q]);
      }
    }
  }

  lemma MoveKeepsSound(v: Volume, w: Volume)
    requires Sound(v) && w == v.(active := w.active)
    requires Keyed(w.active) && DistinctIds(w.active) && forall q :: q in w.active ==> FromIn(v.active, w.active[q])
    ensures Sound(w)
  {
    forall q | q in w.active ensures exists p :: p in v.active && v.active[p].id == w.active[q].id {
      assert FromIn(v.active, w.active[q]);
    }
    forall i | 0 <= i < |w.recycled| ensures Unused(w, w.recycled[i]) { assert Unused(v, v.recycled[i]); }
  }

  /** After a move as a whole every entry shows the same node as before, at its new place. */
  lemma RelocatedTree(cfg: Config, v: Volume, w: Volume, mv: Moves, now: nat)
    requires Relocated(v.active, mv, now, w.active) && w == v.(active := w.active)
    ensures forall p :: p in Tree(cfg, v) ==>
              var q := if p in mv then mv[p] else p;
              q in Tree(cfg, w) && Tree(cfg, w)[q] == Tree(cfg, v)[p]
    ensures forall q :: q in Tree(cfg, w) ==> (q in Tree(cfg, v) && q !in mv) || exists p :: p in mv && mv[p] == q
    ensures Trash(cfg, w) == Trash(cfg, v)
  {
    hide NodeOf;
    forall p | p in Tree(cfg, v)
      ensures var q := if p in mv then mv[p] else p; q in Tree(cfg, w) && Tree(cfg, w)[q] == Tree(cfg, v)[p]
    {
      MovedNode(cfg, v, w, mv, now, p);
    }
  }

  lemma MovedNode(cfg: Config, v: Volume, w: Volume, mv: Moves, now: nat, p: Path)
    requires Relocated(v.active, mv, now, w.active) && w == v.(active := w.active) && p in v.active
    ensures var q := if p in mv then mv[p] else p;
            q in w.active && NodeOf(cfg, w.blocks, w.active[q]) == NodeOf(cfg, v.blocks, v.active[p])
  {
  }

  // ----- the moves of a rename -----

  /** Every entry of the subtree `from`, with its place below `to`. */
  function SubtreeMoves(c: Catalog, from: Path, to: Path): Moves {
    map p | p in c && InSubtree(from, p) :: Moved(from, to, p)
  }

  lemma SubtreeMovesInjective(c: Catalog, from: Path, to: Path)
    ensures Injective(SubtreeMoves(c, from, to))
  {
    var mv := SubtreeMoves(c, from, to);
    forall p, q | p in mv && q in mv && mv[p] == mv[q] ensures p == q {
      MovedBack(from, to, p);
      MovedBack(from, to, q);
    }
  }

  lemma SubtreeRelocates(c: Catalog, from: Path, to: Path, now: nat, paths: seq<Path>)
    requires NoRepeats(paths) && (forall p :: p in paths <==> p in SubtreeMoves(c, from, to))
    requires AllIn(SubtreeMoves(c, from, to), paths)
    ensures var mv := SubtreeMoves(c, from, to);
            FreeInTurn(c, mv, paths) ==> Relocated(c, mv, now, MoveAll(c, mv, now, paths))
  {
    var mv := SubtreeMoves(c, from, to);
    SubtreeMovesInjective(c, from, to);
    if FreeInTurn(c, mv, paths) { MoveAllRelocates(c, mv, now, paths); }
  }

  /** In listing order, what lies at the target of an entry has left before exactly when it is moved
      itself and comes first. */
  lemma TurnOfSubtree(c: Catalog, from: Path, to: Path, paths: seq<Path>, i: nat)
    requires Ascending(Less, paths) && (forall p :: p in paths <==> p in SubtreeMoves(c, from, to))
    requires AllIn(SubtreeMoves(c, from, to), paths) && i < |paths|
    ensures var p := paths[i]; var q := Moved(from, to, p);
            FreeAt(c, SubtreeMoves(c, from, to), paths, i) <==>
              q == p || q !in c || (InSubtree(from, q) && Less(q, p))
  {
    PathOrder();
    var p := paths[i];
    var q := Moved(from, to, p);
    if q in c && InSubtree(from, q) {
      assert q in SubtreeMoves(c, from, to);
      var j :| 0 <= j < |paths| && paths[j] == q;
      assert j < i ==> q in paths[..i];
    }
    if q in paths[..i] {
      var j :| 0 <= j < i && paths[j] == q;
      assert q in paths;
    }
  }

  /** No entry of the subtree moves onto an entry that stays or comes later in listing order. */
  predicate NoneCovered(c: Catalog, from: Path, to: Path) {
    forall p :: p in c && InSubtree(from, p) ==>
      var q := Moved(from, to, p);
      q == p || q !in c || (InSubtree(from, q) && Less(q, p))
  }

  /** A rename, to wherever, conserves the entries exactly when none is covered. */
  lemma RenameConserves(c: Catalog, from: Path, to: Path, now: nat, paths: seq<Path>)
    requires Keyed(c) && DistinctIds(c) && Ascending(Less, paths)
    requires (forall p :: p in paths <==> p in SubtreeMoves(c, from, to)) && AllIn(SubtreeMoves(c, from, to), paths)
    ensures NoneCovered(c, from, to)
      <==> forall id :: Owns(c, id) ==> Owns(MoveAll(c, SubtreeMoves(c, from, to), now, paths), id)
  {
    var mv := SubtreeMoves(c, from, to);
    SubtreeMovesInjective(c, from, to);
    AscendingNoRepeats(paths);
    forall i | 0 <= i < |paths| { TurnOfSubtree(c, from, to, paths, i); }
    assert FreeInTurn(c, mv, paths) <==> NoneCovered(c, from, to) by {
      if FreeInTurn(c, mv, paths) {
        forall p | p in c && InSubtree(from, p)
          ensures var q := Moved(from, to, p); q == p || q !in c || (InSubtree(from, q) && Less(q, p))
        {
          assert p in mv;
          var i :| 0 <= i < |paths| && paths[i] == p;
          assert FreeAt(c, mv, paths, i);
        }
      }
      if NoneCovered(c, from, to) {
        forall i | 0 <= i < |paths| ensures FreeAt(c, mv, paths, i) { assert paths[i] in mv; }
      }
    }
    hide FreeInTurn, NoneCovered;
    MoveConserves(c, mv, now, paths);
  }

  lemma AscendingNoRepeats(paths: seq<Path>)
    requires Ascending(Less, paths)
    ensures NoRepeats(paths)
  {
    PathOrder();
  }

  /** Renaming an entry onto itself, which first deletes the target, takes it out of the tree. */
  lemma {:induction false} RenameOntoItself(c: Catalog, top: Path, now: nat, paths: seq<Path>)
    requires top !in c && AllIn(SubtreeMoves(c, top, top), paths)
    ensures top !in MoveAll(c, SubtreeMoves(c, top, top), now, paths)
  {
    if paths == [] {
    } else {
      var front, last := paths[..|paths| - 1], paths[|paths| - 1];
      assert AllIn(SubtreeMoves(c, top, top), front);
      RenameOntoItself(c, top, now, front);
      MovedBack(top, top, last);
      assert last == Moved(top, top, last);
    }
  }
}
