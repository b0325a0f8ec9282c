/** The stand-alone walker of the `core` package revision
    (core/walker_source.go): WalkFS checks that its root is absolute, then
    walks breadth first, listing directories by Node.Path, asking a Skipper
    about every child node and numbering the children it keeps from 2. */
module WalkerSource {
  import opened Base
  import opened FsModel
  import opened CoreNode
  import opened CoreWalk
  import opened ChildNodes
  import CreateWalker

  /** Skipper: true for a node the walk leaves out. */
  type Skipper = CNode -> bool

  /** DefaultSkipper: anything that is not a directory and not a non-empty
      regular file. */
  function DefaultSkipper(): Skipper
  {
    (n: CNode) => n.kind != Dir && (n.kind != Regular || n.size == 0)
  }

  /** The skipper MakeNameSkipper returns. */
  function MakeNameSkipper(names: seq<string>): Skipper
  {
    (n: CNode) => n.name in names || DefaultSkipper()(n)
  }

  /** The default skipper leaves out exactly what the create walker does not
      keep, so it never leaves out a directory. */
  lemma DefaultSkipsNotLegit(n: CNode)
    ensures DefaultSkipper()(n) <==> !CreateWalker.Legit(n)
    ensures n.kind == Dir ==> !DefaultSkipper()(n)
  {
  }

  /** The loop of a name skipper: a node is left out when one of the names is
      its own, and otherwise when the default skipper leaves it out. */
  method NameSkip(names: seq<string>, n: CNode) returns (r: bool)
    ensures r == MakeNameSkipper(names)(n)
    ensures r <==> (exists i :: 0 <= i < |names| && names[i] == n.name) || !CreateWalker.Legit(n)
  {
    for i := 0 to |names|
      invariant forall j :: 0 <= j < i ==> names[j] != n.name
    {
      if names[i] == n.name {
        return true;
      }
    }
    r := DefaultSkipper()(n);
  }

  /** The skipper WalkFS goes on with after its nil test (None is Go's nil
      Skipper). As written the test is inverted: a given skipper is replaced
      by the default one and a nil one stays nil. Intended: a nil skipper
      becomes the default one and a given one is kept. */
  function EffectiveSkipper(skip: Option<Skipper>, rev: Revision): Option<Skipper>
  {
    match rev
    case AsWritten => if skip.Some? then Some(DefaultSkipper()) else None
    case Intended => if skip.None? then Some(DefaultSkipper()) else skip
  }

  /** A child the walk keeps under an effective skipper: a nil skipper keeps
      everything. */
  function Keep(eff: Option<Skipper>): CNode -> bool
  {
    (c: CNode) => !(eff.Some? && eff.value(c))
  }

  /** As written, a nil skipper keeps what the default skipper leaves out, a
      symlink say, and a name skipper does not leave out its names; the
      intended test leaves both out. */
  lemma InvertedSkipper(link: CNode, git: CNode)
    requires link.kind == Other
    requires git.kind == Dir && git.name == ".git"
    ensures Keep(EffectiveSkipper(None, AsWritten))(link)
    ensures !Keep(EffectiveSkipper(None, Intended))(link)
    ensures Keep(EffectiveSkipper(Some(MakeNameSkipper([".git"])), AsWritten))(git)
    ensures !Keep(EffectiveSkipper(Some(MakeNameSkipper([".git"])), Intended))(git)
  {
  }

  /** The corrected nil test: without a skipper the walk keeps what the
      create walker keeps; with one it keeps what that skipper does not leave
      out. */
  lemma SkipperIntended(skip: Option<Skipper>, c: CNode)
    ensures skip.None? ==> (Keep(EffectiveSkipper(skip, Intended))(c) <==> CreateWalker.Legit(c))
    ensures skip.Some? ==> (Keep(EffectiveSkipper(skip, Intended))(c) <==> !skip.value(c))
  {
  }

  /** One dequeued node: a non-directory has nothing to list and is sent; a
      directory whose Path fails ends the program; one that cannot be listed
      is dropped; otherwise its children the effective skipper keeps. Past
      the fatal Path error, the expansion stops the program only for the node
      without an ID, or, as written, on a name that cannot be lstat'ed; a node
      whose path is cached is sent exactly when it is not a directory or can
      be listed. */
  function Expand(fs: FS, eff: Option<Skipper>, rev: Revision, p: CNode): (r: Outcome<Option<seq<CNode>>>)
    ensures r.Aborted? ==>
      || (p.kind == Dir && Path(p).err.Some? && r.abort == Fatal(PathUnavailable))
      || (p.id == 0 && r.abort == Panic(ParentIdUnset))
      || (rev == AsWritten && r.abort == Panic(NilDereference))
    ensures r.Done? && PathCached(p) ==> (Listed(r) <==> CreateWalker.Listable(fs)(p))
    ensures Listed(r) ==> forall c :: c in r.value.value ==>
      && p.kind == Dir && Path(p).path in fs.listing
      && c.name in fs.listing[Path(p).path] && Keep(eff)(c)
  {
    if p.kind != Dir then Done(Some([]))
    else
      var pr := Path(p);
      if pr.err.Some? then Aborted(Fatal(PathUnavailable))
      else match ReadDirNames(fs, pr.path)
        case None => Done(None)
        case Some(names) =>
          match Kids(fs, p, names, AdmitAll(), Keep(eff), rev)
          case Aborted(a) => Aborted(a)
          case Done(cs) => Done(Some(cs))
  }

  function Expander(fs: FS, eff: Option<Skipper>, rev: Revision): Expander
  {
    p => Expand(fs, eff, rev, p)
  }

  /** The expander meets what the BFS engine needs of it. */
  lemma ExpanderFits(fs: FS, eff: Option<Skipper>, rev: Revision)
    requires ValidFS(fs)
    ensures Expands(fs, Expander(fs, eff, rev))
  {
    var x := Expander(fs, eff, rev);
    forall p: CNode ensures ExpandsAt(fs, x, p) {
      if p.id != 0 && PathCached(p) && Listed(x(p)) && p.kind == Dir {
        KidsFit(fs, p, AdmitAll(), Keep(eff), rev);
      }
    }
  }

  /** Once both are corrected, this walker given a name skipper expands a
      queued node exactly as the create walker given the same names as
      exclusions. */
  lemma WalkersAgree(fs: FS, excludes: seq<string>, p: CNode)
    requires p.id != 0 && PathCached(p)
    ensures Expand(fs, EffectiveSkipper(Some(MakeNameSkipper(excludes)), Intended), Intended, p)
         == CreateWalker.Expand(fs, excludes, Intended, p)
  {
    if p.kind == Dir && p.path in fs.listing {
      var names := fs.listing[p.path];
      var keep := Keep(EffectiveSkipper(Some(MakeNameSkipper(excludes)), Intended));
      forall c ensures keep(c) == (c.name !in excludes && CreateWalker.Legit(c)) {
        DefaultSkipsNotLegit(c);
      }
      KidsAdmitLate(fs, p, names, CreateWalker.Admit(excludes), CreateWalker.Legit, keep);
    }
  }

  /** WalkFS: a relative root is an error returned before the walk starts;
      a root lstat cannot read ends the program; as written, so does a name
      that vanishes between listing and lstat, and nothing else does. A
      finished walk gives the root ID 1 and every later node the next ID,
      after its parent; every later node is kept by the effective skipper,
      and without a skipper the corrected walk keeps only directories and
      non-empty regular files; the nodes sent are those that are not
      unlistable directories, in ID order, each after its parent. */
  method WalkFS(fs: FS, path: string, skip: Option<Skipper>, rev: Revision) returns (r: Result<Outcome<Walked>>)
    requires ValidFS(fs)
    ensures !IsAbs(path) <==> r.Err?
    ensures r.Err? ==> r.error == NotAbsolute(path)
    ensures r.Ok? && path !in fs.stat ==> r.value == Aborted(Fatal(RootLstatFailed))
    ensures r.Ok? && path in fs.stat && r.value.Aborted? ==>
      rev == AsWritten && r.value.abort == Panic(NilDereference)
    ensures r.Ok? && r.value.Done? ==>
      var w := r.value.value;
      && path in fs.stat
      && |w.alloc| >= 1 && w.alloc[0] == MakeRootNode(fs, path).value.(id := 1)
      && Numbered(w.alloc) && Linked(w.alloc)
      && (forall k :: 0 <= k < |w.alloc| ==> PathCached(w.alloc[k]))
      && (forall k :: 1 <= k < |w.alloc| ==> Keep(EffectiveSkipper(skip, rev))(w.alloc[k].(id := 0)))
      && (rev == Intended && skip.None? ==> forall k :: 1 <= k < |w.alloc| ==> CreateWalker.Legit(w.alloc[k]))
      && (forall n :: n in w.out <==> n in w.alloc && (n.kind != Dir || n.path in fs.listing))
      && (forall i, j :: 0 <= i < j < |w.out| ==> w.out[i].id < w.out[j].id)
      && (forall j :: 0 <= j < |w.out| && w.out[j].parentId != 0 ==>
            exists i :: 0 <= i < j && w.out[i].id == w.out[j].parentId)
      && Reached(fs, w.alloc, AdmitAll(), Keep(EffectiveSkipper(skip, rev)))
  {
    var eff := EffectiveSkipper(skip, rev);
    if !IsAbs(path) {
      return Err(NotAbsolute(path));
    }
    var root := MakeRootNode(fs, path);
    if root.Aborted? {
      return Ok(Aborted(root.abort));
    }
    RootPathCached(fs, path);
    var x := Expander(fs, eff, rev);
    ExpanderFits(fs, eff, rev);
    var o := Bfs(fs, root.value, x);
    if o.Aborted? {
      var p: CNode :| p.id != 0 && PathCached(p) && x(p) == Aborted(o.abort);
    } else {
      WalkedNodes(fs, skip, rev, o.value);
      WalkedSent(fs, eff, rev, o.value);
      WalkedComplete(fs, eff, rev, o.value.alloc);
      ParentsSentFirst(o.value.alloc, x);
    }
    r := Ok(o);
  }

  /** Every node after the root was kept by the effective skipper. */
  lemma WalkedNodes(fs: FS, skip: Option<Skipper>, rev: Revision, w: Walked)
    requires 1 <= |w.alloc|
    requires Unnumbered(w.alloc[1..]) == Expansion(w.alloc, Expander(fs, EffectiveSkipper(skip, rev), rev))
    ensures forall k :: 1 <= k < |w.alloc| ==> Keep(EffectiveSkipper(skip, rev))(w.alloc[k].(id := 0))
    ensures rev == Intended && skip.None? ==> forall k :: 1 <= k < |w.alloc| ==> CreateWalker.Legit(w.alloc[k])
  {
    var eff := EffectiveSkipper(skip, rev);
    var x := Expander(fs, eff, rev);
    forall k | 1 <= k < |w.alloc| ensures Keep(eff)(w.alloc[k].(id := 0)) {
      AllocatedFrom(w.alloc, x, k);
      var i :| 0 <= i < |w.alloc| && w.alloc[k].(id := 0) in Children(x(w.alloc[i]));
    }
    if rev == Intended && skip.None? {
      forall k | 1 <= k < |w.alloc| ensures CreateWalker.Legit(w.alloc[k]) {
        assert Keep(eff)(w.alloc[k].(id := 0));
        SkipperIntended(skip, w.alloc[k].(id := 0));
      }
    }
  }

  /** Every name of a listed directory that can be lstat'ed and whose node
      the effective skipper keeps was given an ID. */
  lemma WalkedComplete(fs: FS, eff: Option<Skipper>, rev: Revision, alloc: seq<CNode>)
    requires 1 <= |alloc| && Unnumbered(alloc[1..]) == Expansion(alloc, Expander(fs, eff, rev))
    requires forall k :: 0 <= k < |alloc| ==> PathCached(alloc[k]) && Expander(fs, eff, rev)(alloc[k]).Done?
    ensures Reached(fs, alloc, AdmitAll(), Keep(eff))
  {
    var x := Expander(fs, eff, rev);
    forall k, name | 0 <= k < |alloc| && alloc[k].kind == Dir && alloc[k].path in fs.listing
      && name in fs.listing[alloc[k].path] && Yields(fs, alloc[k], name, AdmitAll(), Keep(eff))
      ensures MakeNode(fs, alloc[k], name).value.value in Unnumbered(alloc[1..])
    {
      assert x(alloc[k]).Done? && PathCached(alloc[k]);
      ListedChild(fs, eff, rev, alloc[k], name);
      AllocatesChildren(alloc, x, k, MakeNode(fs, alloc[k], name).value.value);
    }
  }

  /** A name of a listed directory that yields a child is among the
      children its expansion lists. */
  lemma ListedChild(fs: FS, eff: Option<Skipper>, rev: Revision, p: CNode, name: string)
    requires PathCached(p) && p.kind == Dir && p.path in fs.listing && Expand(fs, eff, rev, p).Done?
    requires name in fs.listing[p.path] && Yields(fs, p, name, AdmitAll(), Keep(eff))
    ensures MakeNode(fs, p, name).value.value in Children(Expand(fs, eff, rev, p))
  {
    var names := fs.listing[p.path];
    assert Kids(fs, p, names, AdmitAll(), Keep(eff), rev).Done?;
    KidsComplete(fs, p, names, AdmitAll(), Keep(eff), rev);
    var i :| 0 <= i < |names| && names[i] == name;
  }

  /** The nodes sent are the allocated ones that are not unlistable
      directories, in ID order. */
  lemma WalkedSent(fs: FS, eff: Option<Skipper>, rev: Revision, w: Walked)
    requires Numbered(w.alloc) && w.out == Emitted(w.alloc, Expander(fs, eff, rev))
    requires forall k :: 0 <= k < |w.alloc| ==>
      w.alloc[k].id != 0 && PathCached(w.alloc[k]) && Expander(fs, eff, rev)(w.alloc[k]).Done?
    ensures forall n :: n in w.out <==> n in w.alloc && (n.kind != Dir || n.path in fs.listing)
    ensures forall i, j :: 0 <= i < j < |w.out| ==> w.out[i].id < w.out[j].id
  {
    var x := Expander(fs, eff, rev);
    assert forall k :: 0 <= k < |w.alloc| ==> (Listed(x(w.alloc[k])) <==> CreateWalker.Listable(fs)(w.alloc[k]));
    SentWhere(w.alloc, x, CreateWalker.Listable(fs));
  }

  /** As written, the Expand step for a directory whose only entry vanished
      between the listing and the lstat panics, whatever the skipper; the
      intended loop skips the entry and the directory is sent. */
  lemma VanishedChild(top: CNode, skip: Option<Skipper>)
    requires top.id == 1 && top.kind == Dir && top.path == "/r" && top.rootPath == "/r"
    ensures var fs := FS(map["/r" := ["x"]], map["/r" := FileInfo("r", Dir, 0)]);
      && Expand(fs, EffectiveSkipper(skip, AsWritten), AsWritten, top) == Aborted(Panic(NilDereference))
      && Expand(fs, EffectiveSkipper(skip, Intended), Intended, top) == Done(Some([]))
  {
    var fs := FS(map["/r" := ["x"]], map["/r" := FileInfo("r", Dir, 0)]);
    assert Path(top) == PathResult("/r", None);
    assert Join("/r", "x") == "/r/x";
    assert "/r/x" !in fs.stat;
    assert ["x"][1..] == [];
    assert MakeNode(fs, top, "x") == Done(Err(LstatFailed("/r/x")));
    assert Kids(fs, top, ["x"], AdmitAll(), Keep(EffectiveSkipper(skip, Intended)), Intended) == Done([]);
  }
}
