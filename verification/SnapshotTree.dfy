/** The tree shown below `.snapshots`: it is not stored but read off the list of captured paths,
    once for listing a directory and once more for looking up a name. */
module SnapshotTree {
  import opened Wrappers
  import opened Storage
  import opened Paths
  import opened Volumes
  import opened Snapshots

  /** The first component of the rest of a path. */
  function Component(rest: string): (name: string)
    ensures '/' !in name && name <= rest
    ensures name == rest <==> '/' !in rest
    ensures '/' in rest ==> name + "/" <= rest
  {
    if rest == "" || rest[0] == '/' then "" else
      var name := [rest[0]] + Component(rest[1..]);
      assert rest == [rest[0]] + rest[1..];
      name
  }

  lemma {:induction false} ComponentIs(rest: string, name: string)
    requires '/' !in name
    ensures Component(rest) == name <==> rest == name || name + "/" <= rest
  {
    if rest == "" || rest[0] == '/' {
    } else {
      assert rest == [rest[0]] + rest[1..];
      if name != "" {
        assert name == [name[0]] + name[1..];
        ComponentIs(rest[1..], name[1..]);
        if name + "/" <= rest { assert (name[1..] + "/") == (name + "/")[1..] <= rest[1..]; }
        if name[0] == rest[0] && name[1..] + "/" <= rest[1..] { assert name + "/" == [rest[0]] + (name[1..] + "/"); }
      }
    }
  }

  /** `p` makes the name appear in the directory, as a directory itself if more follows. */
  predicate Yields(p: Path, parent: Path, name: string) {
    var child := Prefix(parent) + name;
    '/' !in name && ((p == child && name != "") || Below(child, p))
  }

  lemma BehindPrefix(prefix: Path, rest: string, name: string)
    ensures prefix + rest == prefix + name <==> rest == name
    ensures Below(prefix + name, prefix + rest) <==> name + "/" <= rest
  {
    if prefix + rest == prefix + name { assert (prefix + rest)[|prefix|..] == (prefix + name)[|prefix|..]; }
    assert prefix + name + "/" == prefix + (name + "/");
    if Below(prefix + name, prefix + rest) {
      assert (prefix + rest)[|prefix|..] == rest && (prefix + (name + "/"))[|prefix|..] == name + "/";
    }
  }

  lemma NotBehindPrefix(prefix: Path, p: Path, name: string)
    requires !(prefix <= p)
    ensures p != prefix + name && !Below(prefix + name, p)
  {
    assert prefix <= prefix + name <= prefix + name + "/";
  }

  /** What a path contributes to a listing: the first component behind the directory, if any, and
      that as a directory if the path goes on. */
  lemma RestYields(p: Path, parent: Path, name: string)
    requires '/' !in name
    ensures var k := |Prefix(parent)|;
            && (Yields(p, parent, name) <==> Prefix(parent) <= p && p[k..] != "" && Component(p[k..]) == name)
            && (Below(Prefix(parent) + name, p) ==> Yields(p, parent, name))
            && (Yields(p, parent, name) ==> ('/' in p[k..] <==> Below(Prefix(parent) + name, p)))
  {
    var k := |Prefix(parent)|;
    if Prefix(parent) <= p {
      var rest := p[k..];
      assert p == Prefix(parent) + rest;
      BehindPrefix(Prefix(parent), rest, name);
      ComponentIs(rest, name);
      hide Below;
      if name + "/" <= rest { assert rest[|name|] == (name + "/")[|name|]; }
    } else {
      NotBehindPrefix(Prefix(parent), p, name);
    }
  }

  ghost predicate Named(paths: seq<Path>, parent: Path, name: string) {
    exists p :: p in paths && Yields(p, parent, name)
  }

  ghost predicate GoesOn(paths: seq<Path>, child: Path) { exists p :: p in paths && Below(child, p) }

  /** The names in the directory, and which of them are directories. */
  ghost predicate ShowsChildren(paths: seq<Path>, parent: Path, seen: map<string, bool>) {
    && (forall name :: name in seen <==> Named(paths, parent, name))
    && (forall name :: name in seen ==> (seen[name] <==> GoesOn(paths, Prefix(parent) + name)))
  }

  lemma OneMore(paths: seq<Path>, parent: Path, p: Path, name: string)
    ensures Named(paths + [p], parent, name) <==> Named(paths, parent, name) || Yields(p, parent, name)
    ensures GoesOn(paths + [p], Prefix(parent) + name) <==>
              GoesOn(paths, Prefix(parent) + name) || Below(Prefix(parent) + name, p)
  {
    hide Yields, Below;
    var more := paths + [p];
    assert p in more && forall q :: q in more <==> q in paths || q == p;
  }

  /** A turn of the loop over the captured paths. */
  function WithPath(seen: map<string, bool>, parent: Path, path: Path): map<string, bool> {
    if Prefix(parent) <= path && path[|Prefix(parent)|..] != "" then
      var rest := path[|Prefix(parent)|..];
      var component := Component(rest);
      seen[component := (component in seen && seen[component]) || '/' in rest]
    else seen
  }

  lemma OneMoreName(paths: seq<Path>, parent: Path, p: Path, seen: map<string, bool>, name: string)
    requires ShowsChildren(paths, parent, seen)
    ensures var more := WithPath(seen, parent, p);
            && (name in more <==> Named(paths + [p], parent, name))
            && (name in more ==> (more[name] <==> GoesOn(paths + [p], Prefix(parent) + name)))
  {
    OneMore(paths, parent, p, name);
    if '/' !in name {
      RestYields(p, parent, name);
      if GoesOn(paths, Prefix(parent) + name) { GoesOnNamed(paths, parent, name); }
    }
    hide GoesOn, Yields, Below;
  }

  lemma GoesOnNamed(paths: seq<Path>, parent: Path, name: string)
    requires '/' !in name && GoesOn(paths, Prefix(parent) + name)
    ensures Named(paths, parent, name)
  {
    var p :| p in paths && Below(Prefix(parent) + name, p);
    RestYields(p, parent, name);
  }

  /** The children of a directory in a snapshot. */
  method SnapshotChildren(paths: seq<Path>, parent: Path) returns (seen: map<string, bool>)
    ensures ShowsChildren(paths, parent, seen)
  {
    seen := map[];
    for n := 0 to |paths|
      invariant ShowsChildren(paths[..n], parent, seen)
    {
      var path := paths[n];
      ghost var before := seen;
      assert paths[..n + 1] == paths[..n] + [path];
      forall name { OneMoreName(paths[..n], parent, path, before, name); }
      if Prefix(parent) <= path && path[|Prefix(parent)|..] != "" {
        var rest := path[|Prefix(parent)|..];
        var component := Component(rest);
        var isDir := '/' in rest;
        seen := seen[component := if component in seen then seen[component] || isDir else isDir];
      }
      assert seen == WithPath(before, parent, path);
    }
    assert paths[..|paths|] == paths;
  }

  /** What looking up a path in a snapshot finds. */
  function LookupKind(paths: seq<Path>, child: Path): Option<Kind> {
    var isDir := exists p :: p in paths && Below(child, p);
    var isFile := child in paths;
    if isDir && !isFile then Some(Directory) else if isFile then Some(File) else None
  }

  /** What a listing says about the path. */
  function ListedKind(paths: seq<Path>, child: Path): Option<Kind> {
    if exists p :: p in paths && Below(child, p) then Some(Directory)
    else if child in paths then Some(File) else None
  }

  /** The listing method reports the kinds a listing is said to have. */
  lemma ListingHasKinds(paths: seq<Path>, parent: Path, name: string, seen: map<string, bool>)
    requires ProperName(name) && ShowsChildren(paths, parent, seen)
    ensures ListedKind(paths, Join(parent, name)) ==
              if name !in seen then None else if seen[name] then Some(Directory) else Some(File)
  {
    var child := Prefix(parent) + name;
    assert child == Join(parent, name);
    if GoesOn(paths, child) { GoesOnNamed(paths, parent, name); }
    if child in paths { assert Yields(child, parent, name); }
  }

  /** A listing and a lookup know the same names, but agree on the kind exactly when the path is
      not both captured itself and above another captured path. */
  lemma LookupAgreesWithListing(paths: seq<Path>, parent: Path, name: string, seen: map<string, bool>)
    requires ProperName(name) && ShowsChildren(paths, parent, seen)
    ensures LookupKind(paths, Join(parent, name)).Some? <==> name in seen
    ensures name in seen ==>
              (LookupKind(paths, Join(parent, name)) == Some(if seen[name] then Directory else File)
               <==> !(Join(parent, name) in paths && GoesOn(paths, Join(parent, name))))
  {
    ListingHasKinds(paths, parent, name, seen);
  }

  /** Since snapshots capture directories too, a captured directory is always looked up as a file,
      and listed as one exactly when it was empty. */
  lemma CapturedDirectoriesAreFiles(cfg: Config, v: Volume, s: Snapshot, d: Path)
    requires Captures(cfg, v, s) && (forall p :: p in s.paths <==> p in s.inodes)
    requires d in s.inodes && v.active[d].kind == Directory
    ensures LookupKind(s.paths, d) == Some(File)
    ensures ListedKind(s.paths, d) == Some(File) <==> forall p :: p in v.active ==> !Below(d, p)
  {
    if p :| p in v.active && Below(d, p) {
      BelowInScope(s.scope, d, p);
      assert p in s.paths;
    }
  }

  lemma BelowInScope(scope: Path, d: Path, p: Path)
    requires InScope(scope, d) && Below(d, p)
    ensures InScope(scope, p)
  {
    if Below(scope, d) { assert scope + "/" <= d <= d + "/" <= p; }
  }
}
