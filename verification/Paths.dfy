/** Absolute paths: joining, splitting, moving a subtree, and the order paths are listed in. */
module Paths {
  import opened Sorting
  import opened Wrappers

  type Path = string

  /** The path of the entry `name` in the directory `parent`. */
  function Join(parent: Path, name: string): Path {
    if parent == "/" then "/" + name else parent + "/" + name
  }

  /** Number of characters in front of the part behind the last '/'. */
  function BaseStart(p: Path): (k: nat)
    ensures k <= |p|
    ensures '/' !in p[k..] && (k > 0 ==> p[k - 1] == '/')
  {
    if p == "" then 0
    else if p[|p| - 1] == '/' then |p|
    else
      var k := BaseStart(p[..|p| - 1]);
      assert p[k..] == p[..|p| - 1][k..] + [p[|p| - 1]];
      k
  }

  function BaseName(p: Path): string { p[BaseStart(p)..] }

  function ParentPath(p: Path): Path {
    var k := BaseStart(p);
    if p == "/" || k <= 1 then "/" else p[..k - 1]
  }

  predicate ProperName(name: string) { name != "" && '/' !in name }

  /** A path that names an entry of a directory. */
  predicate Proper(p: Path) {
    p != "" && p[0] == '/' && ProperName(BaseName(p)) && Join(ParentPath(p), BaseName(p)) == p
  }

  lemma NoSlashFrom(p: Path, k: nat)
    requires k <= |p| && '/' !in p[k..]
    ensures forall i :: k <= i < |p| ==> p[i] != '/'
  {
    forall i | k <= i < |p| ensures p[i] != '/' { assert p[i] == p[k..][i - k]; }
  }

  lemma BaseStartIs(p: Path, k: nat)
    requires 0 < k <= |p| && p[k - 1] == '/' && '/' !in p[k..]
    ensures BaseStart(p) == k
  {
    NoSlashFrom(p, BaseStart(p));
    NoSlashFrom(p, k);
  }

  /** Splitting undoes joining. */
  lemma SplitJoin(parent: Path, name: string)
    requires parent != "" && parent[0] == '/' && ProperName(name)
    ensures ParentPath(Join(parent, name)) == parent && BaseName(Join(parent, name)) == name
    ensures Proper(Join(parent, name)) && Join(parent, name) != "/"
  {
    var p := Join(parent, name);
    var k := |p| - |name|;
    assert p[k..] == name;
    BaseStartIs(p, k);
  }

  /** What the paths of all entries of a directory start with. */
  function Prefix(parent: Path): Path { if parent == "/" then "/" else parent + "/" }

  /** The path helper's test for an entry of a directory. */
  function DirectChildName(parent: Path, p: Path): Option<string> {
    if Prefix(parent) <= p && ProperName(p[|Prefix(parent)|..]) then Some(p[|Prefix(parent)|..]) else None
  }

  /** The helper finds a name exactly when joining it gives the path, which is when the path names an
      entry of that directory. */
  lemma DirectChildExact(parent: Path, p: Path, name: string)
    ensures DirectChildName(parent, p) == Some(name) <==> ProperName(name) && p == Join(parent, name)
    ensures parent != "" && parent[0] == '/' ==>
              (DirectChildName(parent, p) == Some(name)
               <==> Proper(p) && ParentPath(p) == parent && BaseName(p) == name)
  {
    if Prefix(parent) <= p { assert p == Prefix(parent) + p[|Prefix(parent)|..]; }
    if ProperName(name) && p == Join(parent, name) {
      assert p[|Prefix(parent)|..] == name;
      if parent != "" && parent[0] == '/' { SplitJoin(parent, name); }
    }
  }

  /** The path lies strictly below `top`. */
  predicate Below(top: Path, p: Path) { top + "/" <= p }

  predicate InSubtree(top: Path, p: Path) { p == top || Below(top, p) }

  /** Where an entry of the subtree `from` ends up when the subtree is moved to `to`. */
  function Moved(from: Path, to: Path, p: Path): Path
    requires InSubtree(from, p)
  {
    to + p[|from|..]
  }

  /** The path helper's way to write the same move. */
  function Rebase(p: Path, oldPrefix: Path, newPrefix: Path): Path
    requires p == oldPrefix || |p| > |oldPrefix|
  {
    if p == oldPrefix then newPrefix else newPrefix + "/" + p[|oldPrefix| + 1..]
  }

  /** The helper's test for lying below a prefix. */
  predicate IsDescendant(p: Path, prefix: Path) {
    |p| > |prefix| && prefix <= p && p[|prefix|] == '/'
  }

  /** The two descriptions of a subtree and of a move agree. */
  lemma MovedIsRebase(from: Path, to: Path, p: Path)
    ensures IsDescendant(p, from) <==> Below(from, p)
    ensures InSubtree(from, p) ==> Moved(from, to, p) == Rebase(p, from, to)
  {
    if IsDescendant(p, from) {
      assert p == p[..|from|] + [p[|from|]] + p[|from| + 1..];
    }
    if Below(from, p) {
      assert p[|from|] == (from + "/")[|from|];
      assert p == from + "/" + p[|from| + 1..];
    }
  }

  /** Moving there and back is the identity, so a move is injective. */
  lemma MovedBack(from: Path, to: Path, p: Path)
    requires InSubtree(from, p)
    ensures InSubtree(to, Moved(from, to, p))
    ensures Moved(to, from, Moved(from, to, p)) == p
  {
    if Below(from, p) {
      assert p[|from|] == (from + "/")[|from|];
      assert p == from + "/" + p[|from| + 1..];
      assert Moved(from, to, p) == to + "/" + p[|from| + 1..];
    }
  }

  /** What lies below a directory lies in an entry of its subtree. */
  lemma ParentInSubtree(top: Path, p: Path)
    requires Below(top, p) && Proper(p) && top != "/" && top != ""
    ensures InSubtree(top, ParentPath(p)) && ParentPath(p) != "/"
    ensures p == ParentPath(p) + "/" + BaseName(p)
  {
    var k := BaseStart(p);
    assert p[|top|] == (top + "/")[|top|];
    NoSlashFrom(p, k);
    var dir := p[..k - 1];
    assert ParentPath(p) == dir && top <= dir;
    if |top| < |dir| {
      assert dir[|top|] == p[|top|];
      assert dir == top + "/" + dir[|top| + 1..];
    }
  }

  /** Moving a subtree keeps the tree shape: base names stay and parents move along. */
  lemma MovedParent(from: Path, to: Path, p: Path)
    requires Below(from, p) && Proper(p) && from != "/" && from != ""
    requires to != "" && to != "/" && to[0] == '/'
    ensures InSubtree(from, ParentPath(p)) && ParentPath(p) != "/"
    ensures BaseName(Moved(from, to, p)) == BaseName(p)
    ensures ParentPath(Moved(from, to, p)) == Moved(from, to, ParentPath(p))
    ensures Proper(Moved(from, to, p))
  {
    ParentInSubtree(from, p);
    var dir, name := ParentPath(p), BaseName(p);
    assert Moved(from, to, p) == Moved(from, to, dir) + "/" + name;
    SplitJoin(Moved(from, to, dir), name);
  }

  /** Order of strings as sorted maps list them. */
  predicate Less(a: Path, b: Path) {
    b != "" && (a == "" || a[0] < b[0] || (a[0] == b[0] && Less(a[1..], b[1..])))
  }

  lemma {:induction false} LessTrichotomy(a: Path, b: Path)
    ensures !Less(a, a)
    ensures a != b ==> Less(a, b) || Less(b, a)
  {
    if a == "" {
    } else {
      LessTrichotomy(a[1..], if b != "" then b[1..] else "");
      if b != "" && a[0] == b[0] && a[1..] == b[1..] {
        assert a == [a[0]] + a[1..] == b;
      }
    }
  }

  lemma {:induction false} LessTransitive(a: Path, b: Path, c: Path)
    requires Less(a, b) && Less(b, c)
    ensures Less(a, c)
  {
    if a == "" || !(a[0] == b[0] == c[0]) {
    } else {
      LessTransitive(a[1..], b[1..], c[1..]);
    }
  }

  lemma PathOrder()
    ensures StrictTotalOrder(Less)
  {
    forall a, b { LessTrichotomy(a, b); }
    forall a, b, c | Less(a, b) && Less(b, c) { LessTransitive(a, b, c); }
  }

  lemma {:induction false} PrefixLess(a: Path, b: Path)
    requires a < b
    ensures Less(a, b)
  {
    if a == "" {
    } else {
      assert a[1..] < b[1..];
      PrefixLess(a[1..], b[1..]);
    }
  }

  /** In a sorted listing a directory comes before everything below it. */
  lemma ParentsFirst(listing: seq<Path>, i: nat, j: nat)
    requires Ascending(Less, listing) && i < |listing| && j < |listing|
    requires Below(listing[i], listing[j])
    ensures i < j
  {
    assert listing[i] < listing[i] + "/";
    PrefixLess(listing[i], listing[j]);
    PathOrder();
  }
}
