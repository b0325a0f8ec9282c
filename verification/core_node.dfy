/** The node of the `core` package revision (core/node.go): a node keeps a
    pointer to its parent, a cached absolute path and its depth; the root
    alone carries the path it was made from. */
module CoreNode {
  import opened Base
  import opened FsModel

  /** core.Node. IDs, sizes and depth are uint64; `parent`, `path` and `depth`
      are the unexported fields that never reach a snapshot file. */
  datatype CNode = CNode(
    id: nat,
    kind: Kind,
    name: string,
    size: nat,
    hash: Hash,
    parentId: nat,
    parent: Option<CNode>,
    path: string,
    depth: nat,
    rootPath: string)

  /** The two results of Node.Path: a path and an error. */
  datatype PathResult = PathResult(path: string, err: Option<Error>)

  /** Node.Path: the root path when the node has one; an error when there is
      no parent to ask; otherwise the parent's path joined with the name. The
      parent's error is passed on, next to the join of whatever path the
      parent returned. */
  function Path(n: CNode): PathResult
  {
    if n.rootPath != "" then PathResult(n.rootPath, None)
    else if n.parent.None? then PathResult("", Some(NoParentSet(n.id)))
    else
      var pr := Path(n.parent.value);
      PathResult(Join(pr.path, n.name), pr.err)
  }

  /** Following parent pointers from `n` reaches a node carrying a root path. */
  predicate Anchored(n: CNode)
  {
    n.rootPath != "" || (n.parent.Some? && Anchored(n.parent.value))
  }

  /** Where the climb of Node.Path stops: the first node on the chain that has
      a root path or no parent. */
  function Top(n: CNode): CNode
  {
    if n.rootPath != "" || n.parent.None? then n else Top(n.parent.value)
  }

  /** How many parent pointers separate `n` from the top of its chain. */
  function Ancestors(n: CNode): nat
  {
    if n.parent.None? then 0 else 1 + Ancestors(n.parent.value)
  }

  /** Path fails exactly when the chain never reaches a root path, and then
      names the node at the top of the chain, the one without a parent. */
  lemma {:induction false} PathFails(n: CNode)
    ensures Path(n).err.None? <==> Anchored(n)
    ensures Path(n).err.Some? ==> Path(n).err == Some(NoParentSet(Top(n).id)) && Top(n).parent.None?
  {
    if n.rootPath == "" && n.parent.Some? {
      PathFails(n.parent.value);
    }
  }

  /** The cached `path` field agrees with what Path computes. */
  predicate PathCached(n: CNode)
  {
    Path(n) == PathResult(n.path, None)
  }

  /** MakeNode: a child of `parent` named `name`. It panics when the parent's
      ID is unset (0), returns an error when lstat fails on the joined path,
      and otherwise takes kind and size (converted to uint64) from lstat,
      links the parent and one more level of depth. The ID is left 0 and no
      hash is computed. */
  function MakeNode(fs: FS, parent: CNode, name: string): (r: Outcome<Result<CNode>>)
    ensures r.Aborted? <==> parent.id == 0
    ensures r.Aborted? ==> r.abort == Panic(ParentIdUnset)
    ensures r.Done? ==> (r.value.Err? <==> Join(parent.path, name) !in fs.stat)
    ensures r.Done? && r.value.Err? ==> r.value.error == LstatFailed(Join(parent.path, name))
    ensures r.Done? && r.value.Ok? ==>
      var c := r.value.value;
      var info := fs.stat[Join(parent.path, name)];
      && c.id == 0 && c.name == name && c.parentId == parent.id && c.parent == Some(parent)
      && c.kind == info.kind && c.size == WrapU64(info.size) && IsUint64(c.size)
      && c.path == Join(parent.path, name) && c.rootPath == "" && c.hash == ZeroHash()
      && c.depth == WrapU64(parent.depth + 1)
  {
    if parent.id == 0 then Aborted(Panic(ParentIdUnset))
    else
      var path := Join(parent.path, name);
      match Lstat(fs, path)
      case None => Done(Err(LstatFailed(path)))
      case Some(info) =>
        Done(Ok(CNode(0, info.kind, name, WrapU64(info.size), ZeroHash(), parent.id,
                      Some(parent), path, WrapU64(parent.depth + 1), "")))
  }

  /** MakeRootNode: the root of a walk at `path`. A failed lstat ends the
      program (log.Fatalf); otherwise the root takes its name, kind and size
      from lstat, has no parent, parent ID 0, depth 0, and remembers `path`
      both as its cached path and as its root path. */
  function MakeRootNode(fs: FS, path: string): (r: Outcome<CNode>)
    ensures r.Aborted? <==> path !in fs.stat
    ensures r.Aborted? ==> r.abort == Fatal(RootLstatFailed)
    ensures r.Done? ==>
      && r.value.parent.None? && r.value.parentId == 0 && r.value.depth == 0 && r.value.id == 0
      && r.value.path == path && r.value.rootPath == path
      && r.value.name == fs.stat[path].name && r.value.kind == fs.stat[path].kind
      && r.value.size == WrapU64(fs.stat[path].size)
  {
    match Lstat(fs, path)
    case None => Aborted(Fatal(RootLstatFailed))
    case Some(info) =>
      Done(CNode(0, info.kind, info.name, WrapU64(info.size), ZeroHash(), 0, None, path, 0, path))
  }

  /** A root made from a non-empty path knows its path and its depth; one
      made from the empty path has neither root path nor parent, so Path fails
      on it. */
  lemma RootPathCached(fs: FS, path: string)
    requires MakeRootNode(fs, path).Done?
    ensures path != "" ==> PathCached(MakeRootNode(fs, path).value)
    ensures path == "" ==> Path(MakeRootNode(fs, path).value).err == Some(NoParentSet(0))
    ensures MakeRootNode(fs, path).value.depth == Ancestors(MakeRootNode(fs, path).value)
  {
  }

  /** MakeNode keeps the cached path truthful: a child of a node whose cached
      path is right has a right cached path too. */
  lemma MakeNodeKeepsPath(fs: FS, parent: CNode, name: string, c: CNode)
    requires PathCached(parent)
    requires MakeNode(fs, parent, name) == Done(Ok(c))
    ensures PathCached(c)
  {
  }

  /** MakeNode keeps `depth` equal to the number of ancestors, as long as it
      fits in a uint64. */
  lemma MakeNodeKeepsDepth(fs: FS, parent: CNode, name: string, c: CNode)
    requires parent.depth == Ancestors(parent) && Ancestors(parent) + 1 < TWO64
    requires MakeNode(fs, parent, name) == Done(Ok(c))
    ensures c.depth == Ancestors(c)
  {
  }
}
