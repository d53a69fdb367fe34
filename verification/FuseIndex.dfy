/** The index maps of a mount: what they must contain for a catalog, and what the incremental
    updates do to them. */
module FuseIndex {
  import opened ByteStrings
  import opened Wrappers
  import opened Sorting
  import opened Paths
  import opened Volumes

  const ROOT_INO: nat := 1

  /** A cached node; the root has no inode. */
  datatype FuseNode = FuseNode(path: Path, parentPath: Path, inode: Option<Inode>, data: Bytes) {
    function Ino(): nat { if inode.Some? then inode.value.id + 1 else ROOT_INO }

    function Kind(): Kind { if inode.Some? then inode.value.kind else Directory }
  }

  const ROOT_NODE := FuseNode("/", "/", None, [])

  datatype Index = Index(nodes: map<nat, FuseNode>, inoByPath: map<Path, nat>, children: map<Path, set<string>>)

  function NodeFor(n: Inode, data: Bytes): FuseNode { FuseNode(n.path, ParentPath(n.path), Some(n), data) }

  /** The node stands for the inode; only cached content, size, metadata and times may differ. */
  predicate Mirrors(node: FuseNode, n: Inode) {
    && node.path == n.path && node.parentPath == ParentPath(n.path)
    && node.inode.Some? && node.inode.value.id == n.id && node.inode.value.kind == n.kind
    && node.inode.value.path == n.path
  }

  /** The catalog can be indexed: ids identify and all paths name directory entries. */
  ghost predicate Indexable(c: Catalog) {
    Keyed(c) && DistinctIds(c) && forall p :: p in c ==> Proper(p) && p != "/" && c[p].id > 0
  }

  ghost predicate HasEntry(c: Catalog, d: Path) {
    d == "/" || d in c || exists p :: p in c && ParentPath(p) == d
  }

  function ChildNames(c: Catalog, d: Path): set<string> {
    set p | p in c && ParentPath(p) == d :: BaseName(p)
  }

  ghost function Inos(c: Catalog): set<nat> { {ROOT_INO} + set p | p in c :: c[p].id + 1 }

  ghost predicate NodesMatch(c: Catalog, nodes: map<nat, FuseNode>) {
    && ROOT_INO in nodes && nodes[ROOT_INO].(data := []) == ROOT_NODE
    && (forall p :: p in c ==> c[p].id + 1 in nodes && Mirrors(nodes[c[p].id + 1], c[p]))
    && nodes.Keys == Inos(c)
  }

  ghost predicate PathsMatch(c: Catalog, inoByPath: map<Path, nat>) {
    && inoByPath.Keys == c.Keys + {"/"}
    && (forall p :: p in inoByPath ==> inoByPath[p] == if p == "/" then ROOT_INO else c[p].id + 1)
  }

  ghost predicate ChildrenMatch(c: Catalog, children: map<Path, set<string>>) {
    && (forall d :: d in children <==> HasEntry(c, d))
    && (forall d :: d in children ==> children[d] == ChildNames(c, d))
  }

  /** The index of the catalog, up to cached data. */
  ghost predicate Indexes(c: Catalog, ix: Index) {
    NodesMatch(c, ix.nodes) && PathsMatch(c, ix.inoByPath) && ChildrenMatch(c, ix.children)
  }

  /** There is only one index of a catalog, up to cached data. */
  lemma IndexUnique(c: Catalog, a: Index, b: Index)
    requires Indexable(c) && Indexes(c, a) && Indexes(c, b)
    ensures a.inoByPath == b.inoByPath && a.children == b.children
    ensures forall ino :: ino in a.nodes <==> ino in b.nodes
    ensures forall ino :: ino in a.nodes ==> SameNode(a.nodes[ino], b.nodes[ino])
  {
    hide Proper, ParentPath, BaseName, ChildNames, HasEntry;
    assert forall d :: d in a.children <==> d in b.children;
    NodesUnique(c, a.nodes, b.nodes);
    NodesUnique(c, b.nodes, a.nodes);
  }

  lemma NodesUnique(c: Catalog, a: map<nat, FuseNode>, b: map<nat, FuseNode>)
    requires NodesMatch(c, a) && NodesMatch(c, b)
    ensures forall ino :: ino in a ==> ino in b && SameNode(a[ino], b[ino])
  {
    hide ParentPath;
    forall ino | ino in a && ino != ROOT_INO ensures ino in b && SameNode(a[ino], b[ino])
    {
      assert ino in Inos(c);
      var p :| p in c && c[p].id + 1 == ino;
      assert Mirrors(b[c[p].id + 1], c[p]) && Mirrors(a[c[p].id + 1], c[p]);
    }
  }

  // ----- registering -----

  function AddChild(children: map<Path, set<string>>, d: Path, name: string): map<Path, set<string>> {
    children[d := (if d in children then children[d] else {}) + {name}]
  }

  function AddDirectory(children: map<Path, set<string>>, d: Path): map<Path, set<string>> {
    if d in children then children else children[d := {}]
  }

  function Registered(ix: Index, node: FuseNode): Index {
    Index(ix.nodes[node.Ino() := node],
          ix.inoByPath[node.path := node.Ino()],
          AddChild(AddDirectory(ix.children, node.path), node.parentPath, BaseName(node.path)))
  }

  lemma ChildNamesAdd(c: Catalog, n: Inode, d: Path)
    requires n.path !in c
    ensures ChildNames(c[n.path := n], d) ==
              ChildNames(c, d) + if ParentPath(n.path) == d then {BaseName(n.path)} else {}
  {
    var w := c[n.path := n];
    forall x ensures x in ChildNames(w, d) <==>
                       x in ChildNames(c, d) || (ParentPath(n.path) == d && x == BaseName(n.path))
    {
      if ParentPath(n.path) == d && x == BaseName(n.path) { assert n.path in w; }
      if x in ChildNames(c, d) {
        var p :| p in c && ParentPath(p) == d && BaseName(p) == x;
        assert p in w;
      }
    }
  }

  lemma HasEntryAdd(c: Catalog, n: Inode, d: Path)
    requires n.path !in c
    ensures HasEntry(c[n.path := n], d) <==> HasEntry(c, d) || d == n.path || d == ParentPath(n.path)
  {
    var w := c[n.path := n];
    assert n.path in w;
    if p :| p in c && ParentPath(p) == d { assert p in w; }
  }

  lemma RegisterChildren(c: Catalog, children: map<Path, set<string>>, n: Inode)
    requires n.path !in c && ChildrenMatch(c, children) && ParentPath(n.path) != n.path
    ensures ChildrenMatch(c[n.path := n],
                          AddChild(AddDirectory(children, n.path), ParentPath(n.path), BaseName(n.path)))
  {
    var w, r := c[n.path := n], AddChild(AddDirectory(children, n.path), ParentPath(n.path), BaseName(n.path));
    forall d ensures (d in r <==> HasEntry(w, d)) && (d in r ==> r[d] == ChildNames(w, d)) {
      ChildNamesAdd(c, n, d);
      HasEntryAdd(c, n, d);
      if !HasEntry(c, d) { assert ChildNames(c, d) == {}; }
      hide ParentPath, BaseName, ChildNames, HasEntry;
    }
  }

  lemma InosPut(c: Catalog, n: Inode)
    requires n.path !in c
    ensures Inos(c[n.path := n]) == Inos(c) + {n.id + 1}
  {
    var w := c[n.path := n];
    forall p | p in c ensures w[p].id + 1 in Inos(w) {}
    assert w[n.path].id + 1 in Inos(w);
  }

  lemma RegisterNode(c: Catalog, nodes: map<nat, FuseNode>, n: Inode, node: FuseNode, p: Path)
    requires forall q :: q in c ==> c[q].id + 1 in nodes && Mirrors(nodes[c[q].id + 1], c[q])
    requires n.path !in c && Lacks(c, n.id) && Mirrors(node, n) && p in c[n.path := n]
    ensures var w, r := c[n.path := n], nodes[n.id + 1 := node];
            w[p].id + 1 in r && Mirrors(r[w[p].id + 1], w[p])
  {
    hide Mirrors;
    if p != n.path { assert c[p].id != n.id; }
  }

  lemma RegisterNodes(c: Catalog, nodes: map<nat, FuseNode>, n: Inode, node: FuseNode)
    requires NodesMatch(c, nodes) && n.path !in c && n.id > 0 && Lacks(c, n.id) && Mirrors(node, n)
    ensures NodesMatch(c[n.path := n], nodes[n.id + 1 := node])
  {
    hide Mirrors, Inos, Lacks;
    InosPut(c, n);
    var w, r := c[n.path := n], nodes[n.id + 1 := node];
    forall p | p in w ensures w[p].id + 1 in r && Mirrors(r[w[p].id + 1], w[p]) { RegisterNode(c, nodes, n, node, p); }
  }

  lemma RegisterPaths(c: Catalog, inoByPath: map<Path, nat>, n: Inode)
    requires PathsMatch(c, inoByPath) && n.path != "/"
    ensures PathsMatch(c[n.path := n], inoByPath[n.path := n.id + 1])
  {
  }

  /** Registering a new entry takes the index of the catalog to the index with the entry in it,
      whether or not the parent is there. */
  lemma RegisterIndexes(c: Catalog, ix: Index, n: Inode, node: FuseNode)
    requires Indexable(c) && Indexes(c, ix)
    requires n.path !in c && Proper(n.path) && n.id > 0 && Lacks(c, n.id) && Mirrors(node, n)
    ensures Indexable(c[n.path := n])
    ensures Indexes(c[n.path := n], Registered(ix, node))
  {
    IndexablePut(c, n);
    ProperParent(n.path);
    hide Indexable, Proper, ParentPath, BaseName, NodesMatch, PathsMatch, ChildrenMatch, Lacks;
    RegisterChildren(c, ix.children, n);
    RegisterNodes(c, ix.nodes, n, node);
    RegisterPaths(c, ix.inoByPath, n);
    assert node.Ino() == n.id + 1 && node.path == n.path && node.parentPath == ParentPath(n.path);
  }

  lemma IndexablePut(c: Catalog, n: Inode)
    requires Indexable(c) && Proper(n.path) && n.id > 0 && Lacks(c, n.id)
    ensures Indexable(c[n.path := n])
  {
    ProperParent(n.path);
    hide Proper;
  }

  lemma SomeIndexable(c: Catalog, d: Catalog)
    requires Indexable(c) && forall p :: p in d ==> p in c && d[p] == c[p]
    ensures Indexable(d)
  {
    hide Proper;
  }

  /** The next entry of a catalog can be registered on top of some others. */
  lemma NextIndexable(c: Catalog, d: Catalog, n: Inode)
    requires Indexable(c) && (forall p :: p in d ==> p in c && d[p] == c[p])
    requires n.path in c && c[n.path] == n && n.path !in d
    ensures Proper(n.path) && n.id > 0 && Lacks(d, n.id) && ParentPath(n.path) != n.path
  {
    ProperParent(n.path);
    hide Proper;
  }

  lemma RootIndexes()
    ensures Indexes(map[], Index(map[ROOT_INO := ROOT_NODE], map["/" := ROOT_INO], map["/" := {}]))
  {
  }

  /** A rebuild adds the name first and the directory second. */
  lemma AddOrder(children: map<Path, set<string>>, p: Path, d: Path, name: string)
    requires p != d
    ensures AddDirectory(AddChild(children, d, name), p) == AddChild(AddDirectory(children, p), d, name)
  {
  }

  lemma ProperParent(p: Path)
    requires Proper(p)
    ensures ParentPath(p) != p && p != "/" && Join(ParentPath(p), BaseName(p)) == p
  {
  }

  /** A turn of the rebuilding loop. */
  function Rebuilt(ix: Index, n: Inode, data: Bytes): Index {
    Index(ix.nodes[n.id + 1 := NodeFor(n, data)],
          ix.inoByPath[n.path := n.id + 1],
          AddDirectory(AddChild(ix.children, ParentPath(n.path), BaseName(n.path)), n.path))
  }

  /** The part of a catalog with some of its paths. */
  function Portion(c: Catalog, paths: set<Path>): Catalog { map p | p in c && p in paths :: c[p] }

  lemma RebuildStep(c: Catalog, done: set<Path>, ix: Index, p: Path, data: Bytes)
    requires Indexable(c) && p in c && p !in done && Indexes(Portion(c, done), ix)
    ensures Indexes(Portion(c, done + {p}), Rebuilt(ix, c[p], data))
  {
    hide Indexable, Indexes, Lacks, Proper, ParentPath, BaseName, Portion;
    var d, n := Portion(c, done), c[p];
    PortionPush(c, done, p);
    var node := NodeFor(n, data);
    RegisterIndexes(d, ix, n, node);
    AddOrder(ix.children, n.path, node.parentPath, BaseName(n.path));
  }

  lemma PortionPush(c: Catalog, done: set<Path>, p: Path)
    requires Indexable(c) && p in c && p !in done
    ensures var d, n := Portion(c, done), c[p];
            && n.path == p && Portion(c, done + {p}) == d[p := n] && p !in d && Indexable(d)
            && Proper(p) && n.id > 0 && Lacks(d, n.id) && ParentPath(p) != p
  {
    SomeIndexable(c, Portion(c, done));
    NextIndexable(c, Portion(c, done), c[p]);
    hide Proper, ParentPath;
  }

  lemma PortionEnds(c: Catalog)
    ensures Portion(c, {}) == map[] && Portion(c, c.Keys) == c
  {
  }

  // ----- unregistering -----

  function Unregistered(ix: Index, ino: nat): Index {
    if ino !in ix.nodes then ix else
      var node := ix.nodes[ino];
      var children := ix.children - {node.path};
      Index(ix.nodes - {ino}, ix.inoByPath - {node.path},
            if node.parentPath in children
            then children[node.parentPath := children[node.parentPath] - {BaseName(node.path)}]
            else children)
  }

  /** Nothing lies in the entry, and its directory keeps a reason to be listed. */
  ghost predicate Removable(c: Catalog, p: Path) {
    && (forall q :: q in c ==> ParentPath(q) != p)
    && HasEntry(c - {p}, ParentPath(p))
  }

  lemma ChildNamesRemove(c: Catalog, p: Path, d: Path)
    requires p in c && forall q :: q in c ==> Join(ParentPath(q), BaseName(q)) == q
    ensures ChildNames(c - {p}, d) == ChildNames(c, d) - if ParentPath(p) == d then {BaseName(p)} else {}
  {
    hide Join, ParentPath, BaseName;
    forall x ensures x in ChildNames(c - {p}, d) <==>
                       x in ChildNames(c, d) && !(ParentPath(p) == d && x == BaseName(p))
    {
      if x in ChildNames(c, d) {
        var q :| q in c && ParentPath(q) == d && BaseName(q) == x;
        if q != p { assert q in c - {p}; }
      }
      if x in ChildNames(c - {p}, d) {
        var q :| q in c - {p} && ParentPath(q) == d && BaseName(q) == x;
        assert q in c;
      }
    }
  }

  lemma HasEntryRemove(c: Catalog, p: Path, d: Path)
    requires p in c && d != p && d != ParentPath(p)
    ensures HasEntry(c - {p}, d) <==> HasEntry(c, d)
  {
    hide ParentPath;
    if q :| q in c && ParentPath(q) == d { assert q in c - {p}; }
    if q :| q in c - {p} && ParentPath(q) == d { assert q in c; }
  }

  /** Unregistering an entry takes the index of the catalog to the index without the entry exactly
      when the entry is removable; otherwise names of directories are lost or left behind. */
  lemma UnregisterExact(c: Catalog, ix: Index, p: Path)
    requires Indexable(c) && Indexes(c, ix) && p in c
    ensures Indexes(c - {p}, Unregistered(ix, c[p].id + 1)) <==> Removable(c, p)
  {
    forall q | q in c ensures ParentPath(q) != q && q != "/" && Join(ParentPath(q), BaseName(q)) == q {
      ProperParent(q);
    }
    UnregisterChildren(c, ix.children, p);
    UnregisterNodes(c, ix.nodes, p);
    UnregisterPaths(c, ix.inoByPath, p);
    hide Proper, ParentPath, BaseName, Join, ChildNames, HasEntry, Removable, ChildrenMatch, PathsMatch;
    assert c[p].id + 1 in ix.nodes && Mirrors(ix.nodes[c[p].id + 1], c[p]);
  }

  lemma InosRemove(c: Catalog, p: Path)
    requires DistinctIds(c) && p in c && c[p].id > 0
    ensures Inos(c - {p}) == Inos(c) - {c[p].id + 1}
  {
    var w := c - {p};
    forall ino ensures ino in Inos(w) <==> ino in Inos(c) && ino != c[p].id + 1 {
      if ino in Inos(c) && ino != c[p].id + 1 && ino != ROOT_INO {
        var q :| q in c && c[q].id + 1 == ino;
        assert q in w;
      }
      if ino in Inos(w) && ino != ROOT_INO {
        var q :| q in w && w[q].id + 1 == ino;
        assert q in c && c[q].id != c[p].id;
      }
    }
  }

  lemma UnregisterNode(c: Catalog, nodes: map<nat, FuseNode>, p: Path, q: Path)
    requires forall q :: q in c ==> c[q].id + 1 in nodes && Mirrors(nodes[c[q].id + 1], c[q])
    requires DistinctIds(c) && p in c && q in c - {p}
    ensures var w, r := c - {p}, nodes - {c[p].id + 1};
            w[q].id + 1 in r && Mirrors(r[w[q].id + 1], w[q])
  {
    hide Mirrors;
    assert c[q].id != c[p].id;
  }

  lemma UnregisterNodes(c: Catalog, nodes: map<nat, FuseNode>, p: Path)
    requires NodesMatch(c, nodes) && DistinctIds(c) && p in c && c[p].id > 0
    ensures NodesMatch(c - {p}, nodes - {c[p].id + 1})
  {
    hide Mirrors, Inos, DistinctIds;
    var w, r := c - {p}, nodes - {c[p].id + 1};
    assert r.Keys == Inos(w) by { InosRemove(c, p); }
    assert forall q :: q in w ==> w[q].id + 1 in r && Mirrors(r[w[q].id + 1], w[q]) by {
      forall q | q in w ensures w[q].id + 1 in r && Mirrors(r[w[q].id + 1], w[q]) { UnregisterNode(c, nodes, p, q); }
    }
    assert ROOT_INO in r && r[ROOT_INO] == nodes[ROOT_INO];
  }

  lemma UnregisterPaths(c: Catalog, inoByPath: map<Path, nat>, p: Path)
    requires PathsMatch(c, inoByPath) && p in c && p != "/"
    ensures PathsMatch(c - {p}, inoByPath - {p})
  {
  }

  function DropChild(children: map<Path, set<string>>, p: Path, d: Path, name: string): map<Path, set<string>> {
    var rest := children - {p};
    if d in rest then rest[d := rest[d] - {name}] else rest
  }

  lemma HasEntrySelf(c: Catalog, p: Path)
    requires p in c && p != "/" && ParentPath(p) != p
    ensures HasEntry(c - {p}, p) <==> exists q :: q in c && ParentPath(q) == p
    ensures HasEntry(c, ParentPath(p))
  {
    hide ParentPath;
    if q :| q in c && ParentPath(q) == p { assert q in c - {p}; }
    if q :| q in c - {p} && ParentPath(q) == p { assert q in c; }
  }

  lemma UnregisterChildren(c: Catalog, children: map<Path, set<string>>, p: Path)
    requires ChildrenMatch(c, children) && p in c && p != "/" && ParentPath(p) != p
    requires forall q :: q in c ==> Join(ParentPath(q), BaseName(q)) == q
    ensures ChildrenMatch(c - {p}, DropChild(children, p, ParentPath(p), BaseName(p))) <==> Removable(c, p)
  {
    hide ParentPath, BaseName, Join, ChildNames, HasEntry;
    var w, r := c - {p}, DropChild(children, p, ParentPath(p), BaseName(p));
    HasEntrySelf(c, p);
    forall d | d != p && d in r ensures r[d] == ChildNames(w, d) {
      ChildNamesRemove(c, p, d);
      if d != ParentPath(p) { assert r[d] == children[d]; }
    }
    forall d | d != p && d != ParentPath(p) ensures HasEntry(w, d) <==> d in r { HasEntryRemove(c, p, d); }
    assert p !in r && ParentPath(p) in r;
    if Removable(c, p) { assert !HasEntry(w, p); }
  }

  // ----- changes the index does not see -----

  /** The same entries with the same ids and kinds. */
  ghost predicate SameSkeleton(c: Catalog, d: Catalog) {
    && c.Keys == d.Keys
    && forall p :: p in c ==> c[p].id == d[p].id && c[p].kind == d[p].kind && c[p].path == d[p].path
  }

  lemma SkeletonInos(c: Catalog, d: Catalog)
    requires SameSkeleton(c, d)
    ensures Inos(c) <= Inos(d)
  {
    forall ino | ino in Inos(c) ensures ino in Inos(d) {
      if ino != ROOT_INO {
        var p :| p in c && c[p].id + 1 == ino;
        assert p in d && d[p].id + 1 == ino;
      }
    }
  }

  lemma SkeletonNode(c: Catalog, d: Catalog, nodes: map<nat, FuseNode>, p: Path)
    requires SameSkeleton(c, d) && p in d
    requires c[p].id + 1 in nodes && Mirrors(nodes[c[p].id + 1], c[p])
    ensures d[p].id + 1 in nodes && Mirrors(nodes[d[p].id + 1], d[p])
  {
    hide ParentPath;
    assert p in c;
  }

  lemma SkeletonNodes(c: Catalog, d: Catalog, nodes: map<nat, FuseNode>)
    requires SameSkeleton(c, d) && NodesMatch(c, nodes)
    ensures NodesMatch(d, nodes)
  {
    hide Inos, Mirrors;
    assert Inos(c) == Inos(d) by { SkeletonInos(c, d); SkeletonInos(d, c); }
    assert forall p :: p in d ==> d[p].id + 1 in nodes && Mirrors(nodes[d[p].id + 1], d[p]) by {
      forall p | p in d ensures d[p].id + 1 in nodes && Mirrors(nodes[d[p].id + 1], d[p]) {
        assert p in c;
        SkeletonNode(c, d, nodes, p);
      }
    }
  }

  lemma SkeletonChildren(c: Catalog, d: Catalog, children: map<Path, set<string>>)
    requires c.Keys == d.Keys && ChildrenMatch(c, children)
    ensures ChildrenMatch(d, children)
  {
    hide ParentPath, BaseName;
    forall p ensures p in c <==> p in d {}
    forall dir ensures ChildNames(c, dir) == ChildNames(d, dir) && (HasEntry(c, dir) <==> HasEntry(d, dir)) {}
    hide ChildNames, HasEntry;
  }

  lemma SkeletonIndexable(c: Catalog, d: Catalog)
    requires SameSkeleton(c, d) && Indexable(c)
    ensures Indexable(d)
  {
    hide Proper;
    forall p | p in d ensures p in c {}
  }

  lemma SkeletonPaths(c: Catalog, d: Catalog, inoByPath: map<Path, nat>)
    requires SameSkeleton(c, d) && PathsMatch(c, inoByPath)
    ensures PathsMatch(d, inoByPath)
  {
    forall p | p in inoByPath && p != "/" ensures p in c && p in d && c[p].id == d[p].id { assert p in c; }
  }

  lemma SkeletonIndexes(c: Catalog, d: Catalog, ix: Index)
    requires SameSkeleton(c, d) && Indexable(c) && Indexes(c, ix)
    ensures Indexable(d) && Indexes(d, ix)
  {
    SkeletonIndexable(c, d);
    SkeletonPaths(c, d, ix.inoByPath);
    hide NodesMatch, ChildrenMatch, PathsMatch, Indexable;
    assert c.Keys == d.Keys;
    SkeletonNodes(c, d, ix.nodes);
    SkeletonChildren(c, d, ix.children);
  }

  /** A node may get other cached content, size, metadata and times. */
  predicate SameNode(a: FuseNode, b: FuseNode) {
    && a.path == b.path && a.parentPath == b.parentPath && a.inode.Some? == b.inode.Some?
    && (a.inode.Some? ==>
          a.inode.value.id == b.inode.value.id && a.inode.value.kind == b.inode.value.kind
          && a.inode.value.path == b.inode.value.path)
  }

  lemma NodeTouched(c: Catalog, nodes: map<nat, FuseNode>, ino: nat, node: FuseNode)
    requires NodesMatch(c, nodes) && ino in nodes && SameNode(nodes[ino], node)
    ensures NodesMatch(c, nodes[ino := node])
  {
    hide Inos, ParentPath;
    var r := nodes[ino := node];
    forall p | p in c ensures c[p].id + 1 in r && Mirrors(r[c[p].id + 1], c[p]) {
      assert Mirrors(nodes[c[p].id + 1], c[p]);
    }
  }

  lemma NodesReplaced(c: Catalog, ix: Index, nodes: map<nat, FuseNode>)
    requires Indexes(c, ix) && NodesMatch(c, nodes)
    ensures Indexes(c, ix.(nodes := nodes))
  {
  }
}
