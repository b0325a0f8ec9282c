/** The inner loop both walkers of the `core` package revision run over a
    directory's names (core/cmd_create.go:99-118, core/walker_source.go:75-90):
    a name may be refused before a node is made; a node is made with
    MakeNode; a node may be refused after it is made; what is left is
    queued in listing order. */
module ChildNodes {
  import opened Base
  import opened FsModel
  import opened CoreNode
  import opened CoreWalk

  /** Which loop body: the one the source has, where a failed node creation
      is only logged and the missing node is then read, or the evidently
      intended one that skips the name. */
  datatype Revision = AsWritten | Intended

  /** The child nodes made of `p` for `names`, in order. A name `admit`
      refuses is passed over; MakeNode panics on a parent without ID; a
      failed lstat dereferences the missing node (AsWritten) or passes the
      name over (Intended); a node `keep` refuses is passed over. */
  function Kids(fs: FS, p: CNode, names: seq<string>, admit: string -> bool, keep: CNode -> bool, rev: Revision)
    : (r: Outcome<seq<CNode>>)
    ensures r.Done? ==> forall i :: 0 <= i < |r.value| ==>
      && MakeNode(fs, p, r.value[i].name) == Done(Ok(r.value[i]))
      && r.value[i].name in names && admit(r.value[i].name) && keep(r.value[i])
    ensures r.Aborted? ==>
      (p.id == 0 && r.abort == Panic(ParentIdUnset)) || (rev == AsWritten && r.abort == Panic(NilDereference))
  {
    if names == [] then Done([])
    else
      var name := names[0];
      if !admit(name) then Kids(fs, p, names[1..], admit, keep, rev)
      else match MakeNode(fs, p, name)
        case Aborted(a) => Aborted(a)
        case Done(Err(_)) =>
          if rev == AsWritten then Aborted(Panic(NilDereference))
          else Kids(fs, p, names[1..], admit, keep, rev)
        case Done(Ok(c)) =>
          if !keep(c) then Kids(fs, p, names[1..], admit, keep, rev)
          else match Kids(fs, p, names[1..], admit, keep, rev)
            case Aborted(a) => Aborted(a)
            case Done(cs) => Done([c] + cs)
  }

  /** The name test of a loop that refuses no name. */
  function AdmitAll(): string -> bool
  {
    _ => true
  }

  /** A name that becomes a child: admitted, lstat succeeds, node kept. */
  predicate Yields(fs: FS, p: CNode, name: string, admit: string -> bool, keep: CNode -> bool)
  {
    admit(name) && MakeNode(fs, p, name).Done? && MakeNode(fs, p, name).value.Ok?
      && keep(MakeNode(fs, p, name).value.value)
  }

  /** Every name listed in a directory of `alloc` that yields a child has
      been given an ID: its node, but for the ID, follows the root in
      `alloc`. */
  ghost predicate Reached(fs: FS, alloc: seq<CNode>, admit: string -> bool, keep: CNode -> bool)
  {
    forall k, name ::
      (&& 0 <= k < |alloc| && alloc[k].kind == Dir && alloc[k].path in fs.listing
       && name in fs.listing[alloc[k].path] && Yields(fs, alloc[k], name, admit, keep))
      ==> MakeNode(fs, alloc[k], name).value.value in Unnumbered(alloc[1..])
  }

  /** Every name that yields a child is among the children. */
  lemma {:induction false} KidsComplete(fs: FS, p: CNode, names: seq<string>, admit: string -> bool, keep: CNode -> bool, rev: Revision)
    requires Kids(fs, p, names, admit, keep, rev).Done?
    ensures forall i :: 0 <= i < |names| && Yields(fs, p, names[i], admit, keep) ==>
      MakeNode(fs, p, names[i]).value.value in Kids(fs, p, names, admit, keep, rev).value
  {
    if names != [] {
      KidsComplete(fs, p, names[1..], admit, keep, rev);
      forall i | 1 <= i < |names| ensures names[i] == names[1..][i - 1] { }
    }
  }

  /** The walk stops in the loop exactly when an admitted name meets a
      parent without ID, or, as written, a failed lstat. */
  lemma {:induction false} KidsAborts(fs: FS, p: CNode, names: seq<string>, admit: string -> bool, keep: CNode -> bool, rev: Revision)
    ensures Kids(fs, p, names, admit, keep, rev).Aborted? <==>
      exists i :: 0 <= i < |names| && admit(names[i]) &&
        (p.id == 0 || (rev == AsWritten && Join(p.path, names[i]) !in fs.stat))
  {
    if names != [] {
      KidsAborts(fs, p, names[1..], admit, keep, rev);
      forall i | 1 <= i < |names| ensures names[i] == names[1..][i - 1] { }
    }
  }

  /** The two revisions differ only when an admitted name cannot be
      lstat'ed. */
  lemma {:induction false} KidsAgree(fs: FS, p: CNode, names: seq<string>, admit: string -> bool, keep: CNode -> bool)
    requires forall i :: 0 <= i < |names| && admit(names[i]) ==> Join(p.path, names[i]) in fs.stat
    ensures Kids(fs, p, names, admit, keep, AsWritten) == Kids(fs, p, names, admit, keep, Intended)
  {
    if names != [] {
      forall i | 0 <= i < |names[1..]| && admit(names[1..][i]) ensures Join(p.path, names[1..][i]) in fs.stat {
        assert names[1..][i] == names[i + 1];
      }
      KidsAgree(fs, p, names[1..], admit, keep);
    }
  }

  /** The children of a listed directory cannot produce more nodes than
      its entries can. */
  lemma {:induction false} KidsWeight(fs: FS, p: CNode, names: seq<string>, admit: string -> bool, keep: CNode -> bool, rev: Revision)
    requires ValidFS(fs) && p.path in fs.listing
    requires forall i :: 0 <= i < |names| ==> names[i] != ""
    requires Kids(fs, p, names, admit, keep, rev).Done?
    ensures QueueWeight(fs, Kids(fs, p, names, admit, keep, rev).value) <= PotSum(fs, p.path, names)
  {
    if names != [] {
      var rest := names[1..];
      assert forall i :: 0 <= i < |rest| ==> rest[i] == names[i + 1];
      KidsWeight(fs, p, rest, admit, keep, rev);
      var r := Kids(fs, p, names, admit, keep, rev).value;
      var s := Kids(fs, p, rest, admit, keep, rev);
      if r != s.value {
        var c := MakeNode(fs, p, names[0]).value.value;
        assert r == [c] + s.value;
        assert r[1..] == s.value;
      }
    }
  }

  /** The children as the BFS engine needs them of a node with an ID. */
  lemma KidsFit(fs: FS, p: CNode, admit: string -> bool, keep: CNode -> bool, rev: Revision)
    requires ValidFS(fs) && p.id != 0
    requires p.path in fs.listing && Kids(fs, p, fs.listing[p.path], admit, keep, rev).Done?
    ensures ChildrenFit(fs, p, Kids(fs, p, fs.listing[p.path], admit, keep, rev).value)
  {
    var names := fs.listing[p.path];
    KidsWeight(fs, p, names, admit, keep, rev);
  }

  /** Once corrected, refusing a name before its node is made and refusing
      the node by its name afterwards give the same children. */
  lemma {:induction false} KidsAdmitLate(fs: FS, p: CNode, names: seq<string>, admit: string -> bool, keep: CNode -> bool, late: CNode -> bool)
    requires p.id != 0
    requires forall c :: late(c) == (admit(c.name) && keep(c))
    ensures Kids(fs, p, names, admit, keep, Intended) == Kids(fs, p, names, AdmitAll(), late, Intended)
  {
    if names != [] {
      KidsAdmitLate(fs, p, names[1..], admit, keep, late);
    }
  }
}
