/** Cloning a subtree entry by entry. */
module Cloning {
  import opened Wrappers
  import opened Paths
  import opened Storage
  import opened Volumes
  import opened Renaming

  datatype CloneReport = CloneReport(files: nat, directories: nat, skipped: seq<Path>)

  function Targets(mv: Moves, done: set<Path>): set<Path> { set p | p in done && p in mv :: mv[p] }

  /** Everything that was there is still there; each entry to be copied has its copy at a place that
      was empty, unless its target was skipped; and nothing else has appeared. */
  ghost predicate Cloned(t: map<Path, Node>, u: map<Path, Node>, mv: Moves, done: set<Path>, skipped: set<Path>) {
    && u.Keys == t.Keys + (Targets(mv, done) - skipped)
    && t.Keys !! Targets(mv, done) - skipped
    && (forall p :: p in t ==> p in u && u[p] == t[p])
    && (forall p :: p in done && p in mv && mv[p] !in skipped ==> p in t && mv[p] in u && u[mv[p]] == t[p])
  }

  lemma TargetsPush(mv: Moves, done: set<Path>, p: Path)
    requires p in mv && Injective(mv)
    ensures Targets(mv, done + {p}) == Targets(mv, done) + {mv[p]}
    ensures p !in done ==> mv[p] !in Targets(mv, done)
  {
  }

  lemma CopyOne(t: map<Path, Node>, u: map<Path, Node>, mv: Moves, done: set<Path>, skipped: set<Path>, p: Path)
    requires Cloned(t, u, mv, done, skipped) && Injective(mv) && p in mv && p in t && p !in done
    requires skipped <= Targets(mv, done) && mv[p] !in u
    ensures Cloned(t, u[mv[p] := u[p]], mv, done + {p}, skipped) && skipped <= Targets(mv, done + {p})
  {
    TargetsPush(mv, done, p);
    forall q | q in done && q in mv ensures mv[q] != mv[p] {}
    hide Targets, Injective;
    assert mv[p] !in skipped;
  }

  lemma SkipOne(t: map<Path, Node>, u: map<Path, Node>, mv: Moves, done: set<Path>, skipped: set<Path>, p: Path)
    requires Cloned(t, u, mv, done, skipped) && Injective(mv) && p in mv && p !in done
    requires skipped <= Targets(mv, done)
    ensures Cloned(t, u, mv, done + {p}, skipped + {mv[p]}) && skipped + {mv[p]} <= Targets(mv, done + {p})
  {
    TargetsPush(mv, done, p);
    forall q | q in done && q in mv ensures mv[q] != mv[p] {}
    hide Targets, Injective;
  }

  /** The directories among the sources whose copies stand. */
  function CopiedDirectories(c: Catalog, mv: Moves, done: set<Path>, skipped: set<Path>): set<Path> {
    set p | p in done && p in mv && p in c && c[p].kind == Directory && mv[p] !in skipped
  }

  lemma NoneCopied(c: Catalog, mv: Moves)
    ensures CopiedDirectories(c, mv, {}, {}) == {}
  {
  }

  lemma CopiedDirectoriesPush(c: Catalog, mv: Moves, done: set<Path>, skipped: set<Path>, p: Path)
    requires Injective(mv) && p in mv && p in c && p !in done && skipped <= Targets(mv, done)
    ensures |CopiedDirectories(c, mv, done + {p}, skipped)| ==
              |CopiedDirectories(c, mv, done, skipped)| + if c[p].kind == Directory then 1 else 0
    ensures CopiedDirectories(c, mv, done + {p}, skipped + {mv[p]}) == CopiedDirectories(c, mv, done, skipped)
  {
    TargetsPush(mv, done, p);
    assert CopiedDirectories(c, mv, done + {p}, skipped) ==
           CopiedDirectories(c, mv, done, skipped) + if c[p].kind == Directory then {p} else {};
  }

  lemma NothingCloned(t: map<Path, Node>, mv: Moves)
    ensures Cloned(t, t, mv, {}, {})
  {
  }

  /** Before an entry is copied, the source is as it was and only earlier targets are taken. */
  lemma BeforeCopy(cfg: Config, v: Volume, w: Volume, mv: Moves, done: set<Path>, skipped: set<Path>, p: Path)
    requires Cloned(Tree(cfg, v), Tree(cfg, w), mv, done, skipped) && Injective(mv)
    requires p in mv && p in v.active && p !in done
    ensures p in w.active && p in Tree(cfg, v) && p in Tree(cfg, w) && Tree(cfg, w)[p] == Tree(cfg, v)[p]
    ensures mv[p] !in v.active ==> mv[p] !in w.active
    ensures v.active[p].kind == w.active[p].kind
  {
    TreeKeys(cfg, v);
    TreeKeys(cfg, w);
    assert mv[p] !in Targets(mv, done);
  }

  /** With nothing skipped the result is an isomorphic copy: the nodes below the target are exactly
      those of the source, one for one, and the source is unchanged. */
  lemma CloneIsomorphic(t: map<Path, Node>, u: map<Path, Node>, c: Catalog, from: Path, to: Path)
    requires t.Keys == c.Keys && Cloned(t, u, SubtreeMoves(c, from, to), SubtreeMoves(c, from, to).Keys, {})
    ensures forall p :: p in t && InSubtree(from, p) ==>
              Moved(from, to, p) in u && u[Moved(from, to, p)] == t[p]
    ensures forall q :: q in u ==>
              (q in t && u[q] == t[q])
              || (InSubtree(to, q) && InSubtree(from, Moved(to, from, q))
                  && Moved(to, from, q) in t && u[q] == t[Moved(to, from, q)])
  {
    var mv := SubtreeMoves(c, from, to);
    forall p | p in t && InSubtree(from, p) ensures p in mv && mv[p] == Moved(from, to, p) {}
    forall q | q in u && q !in t
      ensures InSubtree(to, q) && InSubtree(from, Moved(to, from, q))
      ensures Moved(to, from, q) in t && u[q] == t[Moved(to, from, q)]
    {
      assert q in Targets(mv, mv.Keys);
      var p :| p in mv && mv[p] == q;
      MovedBack(from, to, p);
    }
  }
}
