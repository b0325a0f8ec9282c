/** The walker of `hsnap create` (core/cmd_create.go:72-126): a breadth-first
    walk from an absolute root that lists directories by their cached path,
    leaves out excluded names, symlinks, other special files and empty
    regular files, numbers the rest from 1 and sends every node whose
    listing did not fail. */
module CreateWalker {
  import opened Base
  import opened FsModel
  import opened CoreNode
  import opened CoreWalk
  import opened ChildNodes

  /** What the walk keeps once a node is made: directories, and regular
      files that are not empty. */
  predicate Legit(c: CNode)
  {
    c.kind == Dir || (c.kind == Regular && c.size != 0)
  }

  /** The name test of the loop: a name not in the exclusion list. */
  function Admit(excludes: seq<string>): string -> bool
  {
    n => n !in excludes
  }

  /** One dequeued node: a non-directory has nothing to list and is sent; a
      directory that cannot be listed is dropped; otherwise its children.
      The expansion stops the program only for the node without an ID, or,
      as written, on a name that cannot be lstat'ed; otherwise the node is
      sent exactly when it is not a directory or can be listed, and its
      children are listed names, not excluded, that the walk keeps. */
  function Expand(fs: FS, excludes: seq<string>, rev: Revision, p: CNode): (r: Outcome<Option<seq<CNode>>>)
    ensures r.Aborted? ==>
      (p.id == 0 && r.abort == Panic(ParentIdUnset)) || (rev == AsWritten && r.abort == Panic(NilDereference))
    ensures r.Done? ==> (Listed(r) <==> Listable(fs)(p))
    ensures Listed(r) ==> forall c :: c in r.value.value ==>
      && p.kind == Dir && p.path in fs.listing
      && c.name in fs.listing[p.path] && c.name !in excludes && Legit(c)
  {
    if p.kind != Dir then Done(Some([]))
    else match ReadDirNames(fs, p.path)
      case None => Done(None)
      case Some(names) =>
        match Kids(fs, p, names, Admit(excludes), Legit, rev)
        case Aborted(a) => Aborted(a)
        case Done(cs) => Done(Some(cs))
  }

  function Expander(fs: FS, excludes: seq<string>, rev: Revision): Expander
  {
    p => Expand(fs, excludes, rev, p)
  }

  /** A node the walk sends once it is dequeued: not a directory, or a
      directory that can be listed. */
  function Listable(fs: FS): CNode -> bool
  {
    (n: CNode) => n.kind != Dir || n.path in fs.listing
  }

  /** The expander meets what the BFS engine needs of it. */
  lemma ExpanderFits(fs: FS, excludes: seq<string>, rev: Revision)
    requires ValidFS(fs)
    ensures Expands(fs, Expander(fs, excludes, rev))
  {
    var x := Expander(fs, excludes, rev);
    forall p: CNode ensures ExpandsAt(fs, x, p) {
      if p.id != 0 && PathCached(p) && Listed(x(p)) && p.kind == Dir {
        KidsFit(fs, p, Admit(excludes), Legit, rev);
      }
    }
  }

  /** walker: a relative root or a root lstat cannot read ends the program;
      as written, so does a name that vanishes between listing and lstat,
      and nothing else does. A finished walk gives the root ID 1 and every
      later node the next ID, after its parent; every later node is a
      directory or a non-empty regular file whose name is not excluded;
      the nodes sent are those that are not unlistable directories, in ID
      order, each after its parent. */
  method Walker(fs: FS, path: string, excludes: seq<string>, rev: Revision) returns (r: Outcome<Walked>)
    requires ValidFS(fs)
    ensures !IsAbs(path) ==> r == Aborted(Fatal(RelativePath))
    ensures IsAbs(path) && path !in fs.stat ==> r == Aborted(Fatal(RootLstatFailed))
    ensures IsAbs(path) && path in fs.stat && r.Aborted? ==> rev == AsWritten && r.abort == Panic(NilDereference)
    ensures r.Done? ==>
      var w := r.value;
      && IsAbs(path) && path in fs.stat
      && |w.alloc| >= 1 && w.alloc[0] == MakeRootNode(fs, path).value.(id := 1)
      && Numbered(w.alloc) && Linked(w.alloc)
      && (forall k :: 0 <= k < |w.alloc| ==> PathCached(w.alloc[k]))
      && (forall k :: 1 <= k < |w.alloc| ==> Legit(w.alloc[k]) && w.alloc[k].name !in excludes)
      && (forall n :: n in w.out <==> n in w.alloc && (n.kind != Dir || n.path in fs.listing))
      && (forall i, j :: 0 <= i < j < |w.out| ==> w.out[i].id < w.out[j].id)
      && (forall j :: 0 <= j < |w.out| && w.out[j].parentId != 0 ==>
            exists i :: 0 <= i < j && w.out[i].id == w.out[j].parentId)
      && Reached(fs, w.alloc, Admit(excludes), Legit)
  {
    if !IsAbs(path) {
      return Aborted(Fatal(RelativePath));
    }
    var root := MakeRootNode(fs, path);
    if root.Aborted? {
      return Aborted(root.abort);
    }
    RootPathCached(fs, path);
    var x := Expander(fs, excludes, rev);
    ExpanderFits(fs, excludes, rev);
    r := Bfs(fs, root.value, x);
    if r.Aborted? {
      var p: CNode :| p.id != 0 && PathCached(p) && x(p) == Aborted(r.abort);
    } else {
      WalkedNodes(fs, excludes, rev, r.value);
      WalkedSent(fs, excludes, rev, r.value);
      WalkedComplete(fs, excludes, rev, r.value.alloc);
      ParentsSentFirst(r.value.alloc, x);
    }
  }

  /** Every node after the root passed both filters. */
  lemma WalkedNodes(fs: FS, excludes: seq<string>, rev: Revision, w: Walked)
    requires 1 <= |w.alloc| && Unnumbered(w.alloc[1..]) == Expansion(w.alloc, Expander(fs, excludes, rev))
    ensures forall k :: 1 <= k < |w.alloc| ==> Legit(w.alloc[k]) && w.alloc[k].name !in excludes
  {
    var x := Expander(fs, excludes, rev);
    forall k | 1 <= k < |w.alloc| ensures Legit(w.alloc[k]) && w.alloc[k].name !in excludes {
      AllocatedFrom(w.alloc, x, k);
      var i :| 0 <= i < |w.alloc| && w.alloc[k].(id := 0) in Children(x(w.alloc[i]));
    }
  }

  /** Every name of a listed directory that passes both filters and can be
      lstat'ed was given an ID. */
  lemma WalkedComplete(fs: FS, excludes: seq<string>, rev: Revision, alloc: seq<CNode>)
    requires 1 <= |alloc| && Unnumbered(alloc[1..]) == Expansion(alloc, Expander(fs, excludes, rev))
    requires forall k :: 0 <= k < |alloc| ==> Expander(fs, excludes, rev)(alloc[k]).Done?
    ensures Reached(fs, alloc, Admit(excludes), Legit)
  {
    var x := Expander(fs, excludes, rev);
    forall k, name | 0 <= k < |alloc| && alloc[k].kind == Dir && alloc[k].path in fs.listing
      && name in fs.listing[alloc[k].path] && Yields(fs, alloc[k], name, Admit(excludes), Legit)
      ensures MakeNode(fs, alloc[k], name).value.value in Unnumbered(alloc[1..])
    {
      var names := fs.listing[alloc[k].path];
      assert x(alloc[k]).Done?;
      KidsComplete(fs, alloc[k], names, Admit(excludes), Legit, rev);
      var i :| 0 <= i < |names| && names[i] == name;
      AllocatesChildren(alloc, x, k, MakeNode(fs, alloc[k], name).value.value);
    }
  }

  /** The nodes sent are the allocated ones that are not unlistable
      directories, in ID order. */
  lemma WalkedSent(fs: FS, excludes: seq<string>, rev: Revision, w: Walked)
    requires Numbered(w.alloc) && w.out == Emitted(w.alloc, Expander(fs, excludes, rev))
    requires forall k :: 0 <= k < |w.alloc| ==> w.alloc[k].id != 0 && Expander(fs, excludes, rev)(w.alloc[k]).Done?
    ensures forall n :: n in w.out <==> n in w.alloc && (n.kind != Dir || n.path in fs.listing)
    ensures forall i, j :: 0 <= i < j < |w.out| ==> w.out[i].id < w.out[j].id
  {
    var x := Expander(fs, excludes, rev);
    assert forall k :: 0 <= k < |w.alloc| ==> (Listed(x(w.alloc[k])) <==> Listable(fs)(w.alloc[k]));
    SentWhere(w.alloc, x, Listable(fs));
  }

  /** The two revisions agree on a file system where every listed entry can
      be lstat'ed. */
  lemma ExpandAgree(fs: FS, excludes: seq<string>, p: CNode)
    requires forall d, i :: d in fs.listing && 0 <= i < |fs.listing[d]| ==> Join(d, fs.listing[d][i]) in fs.stat
    ensures Expand(fs, excludes, AsWritten, p) == Expand(fs, excludes, Intended, p)
  {
    if p.kind == Dir && p.path in fs.listing {
      KidsAgree(fs, p, fs.listing[p.path], Admit(excludes), Legit);
    }
  }

  /** As written, the Expand step for a directory whose only entry vanished
      between the listing and the lstat panics; the intended loop skips the
      entry and the directory is sent. */
  lemma VanishedEntry(top: CNode)
    requires top.id == 1 && top.kind == Dir && top.path == "/r"
    ensures var fs := FS(map["/r" := ["x"]], map["/r" := FileInfo("r", Dir, 0)]);
      && Expand(fs, [], AsWritten, top) == Aborted(Panic(NilDereference))
      && Expand(fs, [], Intended, top) == Done(Some([]))
  {
    var fs := FS(map["/r" := ["x"]], map["/r" := FileInfo("r", Dir, 0)]);
    assert Join("/r", "x") == "/r/x";
    assert "/r/x" !in fs.stat;
    assert ["x"][1..] == [];
    assert MakeNode(fs, top, "x") == Done(Err(LstatFailed("/r/x")));
    assert Kids(fs, top, ["x"], n => n !in [], Legit, Intended) == Done([]);
  }
}
