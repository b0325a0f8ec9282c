/** The walker of the `ncore` package revision (ncore/walk.go): a
    breadth-first walk that sends each node as soon as it is dequeued, then
    lists it if it is a directory. A failed listing panics; an entry lstat
    cannot read, a special file or an empty regular file is passed over
    without an ID; every other entry becomes a node with the next ID. */
module NcoreWalk {
  import opened Base
  import opened FsModel

  /** ncore.Node (ncore/snapshot.go:25-38) without its hash and its
      unexported parent pointer: a directory carries its full path and no
      name, a file its name and size and no path. */
  datatype NNode = NNode(id: nat, parentId: nat, path: string, name: string, size: nat)

  /** The node the entry `name` of directory `p` becomes, before its ID is
      set: none when lstat fails on the joined path or the entry is neither
      a directory nor a non-empty regular file. A directory child keeps the
      joined path; a file child keeps the name and the size as a uint64. */
  function Entry(fs: FS, p: NNode, name: string): (r: Option<NNode>)
    ensures r.Some? <==> Join(p.path, name) in fs.stat && Accepted(fs.stat[Join(p.path, name)])
    ensures r.Some? ==> r.value.id == 0 && r.value.parentId == p.id
    ensures r.Some? && fs.stat[Join(p.path, name)].kind == Dir ==>
      r.value.path == Join(p.path, name) && r.value.name == "" && r.value.size == 0
    ensures r.Some? && fs.stat[Join(p.path, name)].kind != Dir ==>
      r.value.path == "" && r.value.name == name && r.value.size == WrapU64(fs.stat[Join(p.path, name)].size)
  {
    var filename := Join(p.path, name);
    match Lstat(fs, filename)
    case None => None
    case Some(info) =>
      if info.kind != Dir && (info.kind != Regular || info.size == 0) then None
      else if info.kind == Dir then Some(NNode(0, p.id, filename, "", 0))
      else Some(NNode(0, p.id, "", name, WrapU64(info.size)))
  }

  /** An entry the walk keeps: a directory or a non-empty regular file. */
  predicate Accepted(info: FileInfo)
  {
    info.kind == Dir || (info.kind == Regular && info.size != 0)
  }

  /** The children `names` give, in order, before their IDs are set. */
  function Children(fs: FS, p: NNode, names: seq<string>): seq<NNode>
  {
    if names == [] then []
    else
      var e := Entry(fs, p, names[|names| - 1]);
      Children(fs, p, names[..|names| - 1]) + (if e.Some? then [e.value] else [])
  }

  /** Every child comes from one of the names. */
  lemma {:induction false} ChildrenSound(fs: FS, p: NNode, names: seq<string>)
    ensures forall c :: c in Children(fs, p, names) ==>
      exists i :: 0 <= i < |names| && Entry(fs, p, names[i]) == Some(c)
  {
    if names != [] {
      var init := names[..|names| - 1];
      ChildrenSound(fs, p, init);
      forall c | c in Children(fs, p, names)
        ensures exists i :: 0 <= i < |names| && Entry(fs, p, names[i]) == Some(c)
      {
        if c in Children(fs, p, init) {
          var i :| 0 <= i < |init| && Entry(fs, p, init[i]) == Some(c);
          assert names[i] == init[i];
        } else {
          assert Entry(fs, p, names[|names| - 1]) == Some(c);
        }
      }
    }
  }

  /** Every name whose entry is kept gives a child. */
  lemma {:induction false} ChildrenComplete(fs: FS, p: NNode, names: seq<string>)
    ensures forall i :: 0 <= i < |names| && Entry(fs, p, names[i]).Some? ==>
      Entry(fs, p, names[i]).value in Children(fs, p, names)
  {
    if names != [] {
      var init := names[..|names| - 1];
      ChildrenComplete(fs, p, init);
      assert forall i :: 0 <= i < |init| ==> names[i] == init[i];
    }
  }

  /** `s` with its IDs cleared. */
  function Unnumbered(s: seq<NNode>): (r: seq<NNode>)
    ensures |r| == |s|
  {
    seq(|s|, k requires 0 <= k < |s| => s[k].(id := 0))
  }

  /** The nodes of `s` carry the IDs `start`, `start + 1`, ... in order. */
  predicate NumberedFrom(s: seq<NNode>, start: nat)
  {
    forall k :: 0 <= k < |s| ==> s[k].id == start + k
  }

  /** The loop over a directory's names: each kept entry takes the next ID,
      counting on from `id0`, and is queued in listing order. */
  method ListChildren(fs: FS, p: NNode, names: seq<string>, id0: nat) returns (kids: seq<NNode>, id: nat)
    ensures Unnumbered(kids) == Children(fs, p, names)
    ensures NumberedFrom(kids, id0 + 1) && id == id0 + |kids|
  {
    kids, id := [], id0;
    for i := 0 to |names|
      invariant Unnumbered(kids) == Children(fs, p, names[..i])
      invariant NumberedFrom(kids, id0 + 1) && id == id0 + |kids|
    {
      assert names[..i + 1][..i] == names[..i];
      var e := Entry(fs, p, names[i]);
      if e.Some? {
        id := id + 1;
        kids := kids + [e.value.(id := id)];
        assert Unnumbered(kids) == Unnumbered(kids[..|kids| - 1]) + [e.value];
      }
    }
    assert names[..|names|] == names;
  }

  /** The children of a dequeued node: those of its listing when it is a
      directory that can be listed, none otherwise. */
  function Below(fs: FS, p: NNode): seq<NNode>
  {
    if p.path != "" && p.path in fs.listing then Children(fs, p, fs.listing[p.path]) else []
  }

  /** The children of the nodes of `ps`, in order: what the FIFO walk
      enqueues while it processes `ps`. */
  function Expansion(fs: FS, ps: seq<NNode>): seq<NNode>
  {
    if ps == [] then [] else Expansion(fs, ps[..|ps| - 1]) + Below(fs, ps[|ps| - 1])
  }

  /** How many nodes a queue can still produce (termination measure): a
      file one, a directory what lies below its path. */
  ghost function Weight(fs: FS, q: seq<NNode>): nat
    requires ValidFS(fs)
  {
    if q == [] then 0 else (if q[0].path != "" then Pot(fs, q[0].path) else 1) + Weight(fs, q[1..])
  }

  lemma {:induction false} WeightAppend(fs: FS, a: seq<NNode>, b: seq<NNode>)
    requires ValidFS(fs)
    ensures Weight(fs, a + b) == Weight(fs, a) + Weight(fs, b)
  {
    if a != [] {
      assert (a + b)[0] == a[0] && (a + b)[1..] == a[1..] + b;
      WeightAppend(fs, a[1..], b);
    } else {
      assert a + b == b;
    }
  }

  /** The children of a listed directory cannot produce more nodes than its
      entries can. */
  lemma {:induction false} ChildrenWeight(fs: FS, p: NNode, names: seq<string>)
    requires ValidFS(fs) && p.path in fs.listing
    requires forall i :: 0 <= i < |names| ==> names[i] != ""
    ensures Weight(fs, Children(fs, p, names)) <= PotSum(fs, p.path, names)
  {
    if names != [] {
      var init := names[..|names| - 1];
      var last := names[|names| - 1];
      ChildrenWeight(fs, p, init);
      PotSumSnoc(fs, p.path, names);
      var e := Entry(fs, p, last);
      assert Children(fs, p, names) == Children(fs, p, init) + (if e.Some? then [e.value] else []);
      if e.None? {
        assert Children(fs, p, names) == Children(fs, p, init);
      } else {
        WeightAppend(fs, Children(fs, p, init), [e.value]);
        assert [e.value][1..] == [];
        assert Weight(fs, [e.value]) == (if e.value.path != "" then Pot(fs, e.value.path) else 1);
        assert Weight(fs, [e.value]) <= Pot(fs, Join(p.path, last));
      }
    }
  }

  /** PotSum seen from the back. */
  lemma {:induction false} PotSumSnoc(fs: FS, dir: string, names: seq<string>)
    requires ValidFS(fs) && dir in fs.listing
    requires names != [] && forall i :: 0 <= i < |names| ==> names[i] != ""
    ensures PotSum(fs, dir, names) == PotSum(fs, dir, names[..|names| - 1]) + Pot(fs, Join(dir, names[|names| - 1]))
  {
    if |names| == 1 {
      assert names[1..] == [];
      assert names[..0] == [];
    } else {
      PotSumSnoc(fs, dir, names[1..]);
      assert names[1..][..|names| - 2] == names[..|names| - 1][1..];
    }
  }

  /** The node the walk starts from: ID 1, no parent, the root as its path. */
  function RootNode(root: string): NNode
  {
    NNode(1, 0, root, "", 0)
  }

  /** walker: the nodes sent, in order, and the panic that ended the walk if
      a listing failed. The root is sent first with ID 1 and parent ID 0;
      every node has the next ID and a parent that is an earlier directory;
      the nodes after the root are the kept entries of the directories sent,
      in order, as far as the walk got. A panic comes right after sending a
      directory that cannot be listed; otherwise every directory sent was
      listed. */
  method Walker(fs: FS, root: string) returns (out: seq<NNode>, stop: Option<Abort>)
    requires ValidFS(fs)
    ensures |out| >= 1 && out[0] == RootNode(root)
    ensures NumberedFrom(out, 1)
    ensures forall k :: 0 < k < |out| ==> ParentBefore(out, k)
    ensures stop.Some? ==>
      && stop.value == Panic(ListingFailed)
      && out[|out| - 1].path != "" && out[|out| - 1].path !in fs.listing
      && Unnumbered(out[1..]) <= Expansion(fs, out)
    ensures stop.None? ==>
      && (forall k :: 0 <= k < |out| && out[k].path != "" ==> out[k].path in fs.listing)
      && Unnumbered(out[1..]) == Expansion(fs, out)
  {
    var id := 1;
    var q := [RootNode(root)];
    out := [];
    ghost var alloc := q;
    stop := None;
    assert Inv(fs, root, alloc, out, q, id);
    while q != []
      invariant Inv(fs, root, alloc, out, q, id) && stop.None?
      decreases Weight(fs, q)
    {
      out, q, id, stop, alloc := Visit(fs, root, alloc, out, q, id);
      if stop.Some? {
        return;
      }
    }
    Finished(fs, root, alloc, out);
  }

  /** What holds between two iterations of the walk: `alloc`, the nodes
      given IDs, are those sent followed by those queued; they are numbered
      from 1 from the root; each has an earlier directory as its parent;
      every directory sent was listed; and the nodes after the root are the
      children of the nodes sent. */
  ghost predicate Inv(fs: FS, root: string, alloc: seq<NNode>, out: seq<NNode>, q: seq<NNode>, id: nat)
  {
    && alloc == out + q
    && |alloc| == id >= 1 && alloc[0] == RootNode(root)
    && NumberedFrom(alloc, 1)
    && (forall k :: 0 < k < |alloc| ==> ParentBefore(alloc, k))
    && (forall k :: 0 <= k < |out| && out[k].path != "" ==> out[k].path in fs.listing)
    && Unnumbered(alloc[1..]) == Expansion(fs, out)
  }

  /** One iteration: send the head of the queue, then list it if it is a
      directory, panicking when that fails. */
  method Visit(fs: FS, root: string, ghost alloc: seq<NNode>, out: seq<NNode>, q: seq<NNode>, id: nat)
    returns (out': seq<NNode>, q': seq<NNode>, id': nat, stop: Option<Abort>, ghost alloc': seq<NNode>)
    requires ValidFS(fs) && q != [] && Inv(fs, root, alloc, out, q, id)
    ensures stop.None? ==> Inv(fs, root, alloc', out', q', id') && Weight(fs, q') < Weight(fs, q)
    ensures stop.Some? ==> Stops(fs, root, out', stop.value)
  {
    var node := q[0];
    out', q', id', stop, alloc' := out + [node], q[1..], id, None, alloc;
    if node.path != "" {
      var names := ReadDirNames(fs, node.path);
      if names.None? {
        stop := Some(Panic(ListingFailed));
        Stopped(fs, root, alloc, out, q);
        return;
      }
      var kids;
      kids, id' := ListChildren(fs, node, names.value, id);
      Listed(fs, root, alloc, out, q, id, kids);
      q', alloc' := q' + kids, alloc + kids;
    } else {
      Sent(fs, root, alloc, out, q, id);
    }
  }

  /** Sending a file keeps the invariant and shortens the queue. */
  lemma Sent(fs: FS, root: string, alloc: seq<NNode>, out: seq<NNode>, q: seq<NNode>, id: nat)
    requires ValidFS(fs) && q != [] && q[0].path == "" && Inv(fs, root, alloc, out, q, id)
    ensures Inv(fs, root, alloc, out + [q[0]], q[1..], id) && Weight(fs, q[1..]) < Weight(fs, q)
  {
    assert alloc == (out + [q[0]]) + q[1..] by {
      assert q == [q[0]] + q[1..];
    }
    ExpansionSnoc(fs, out + [q[0]]);
    assert (out + [q[0]])[..|out|] == out;
  }

  /** Sending a directory and queuing its children keeps the invariant and
      leaves less to walk. */
  lemma Listed(fs: FS, root: string, alloc: seq<NNode>, out: seq<NNode>, q: seq<NNode>, id: nat, kids: seq<NNode>)
    requires ValidFS(fs) && q != [] && Inv(fs, root, alloc, out, q, id)
    requires q[0].path != "" && q[0].path in fs.listing
    requires Unnumbered(kids) == Children(fs, q[0], fs.listing[q[0].path]) && NumberedFrom(kids, id + 1)
    ensures Inv(fs, root, alloc + kids, out + [q[0]], q[1..] + kids, id + |kids|)
    ensures Weight(fs, q[1..] + kids) < Weight(fs, q)
  {
    ListedWeight(fs, q, kids);
    ListedShape(fs, alloc, out, q, kids);
    GrowNumbered(alloc, kids);
    var out' := out + [q[0]];
    forall k | 0 <= k < |out'| && out'[k].path != "" ensures out'[k].path in fs.listing {
      if k < |out| {
        assert out'[k] == out[k];
      }
    }
    assert (alloc + kids)[0] == alloc[0];
  }

  lemma ListedWeight(fs: FS, q: seq<NNode>, kids: seq<NNode>)
    requires ValidFS(fs) && q != [] && q[0].path != "" && q[0].path in fs.listing
    requires Unnumbered(kids) == Children(fs, q[0], fs.listing[q[0].path])
    ensures Weight(fs, q[1..] + kids) < Weight(fs, q)
  {
    assert Weight(fs, q) == Pot(fs, q[0].path) + Weight(fs, q[1..]);
    ChildrenWeight(fs, q[0], fs.listing[q[0].path]);
    WeightAppend(fs, q[1..], kids);
    WeightUnnumbered(fs, kids);
  }

  lemma ListedShape(fs: FS, alloc: seq<NNode>, out: seq<NNode>, q: seq<NNode>, kids: seq<NNode>)
    requires q != [] && alloc == out + q && NumberedFrom(alloc, 1)
    requires q[0].path != "" && q[0].path in fs.listing
    requires forall k :: 0 < k < |alloc| ==> ParentBefore(alloc, k)
    requires Unnumbered(alloc[1..]) == Expansion(fs, out)
    requires Unnumbered(kids) == Children(fs, q[0], fs.listing[q[0].path])
    ensures alloc + kids == (out + [q[0]]) + (q[1..] + kids)
    ensures forall k :: 0 < k < |alloc + kids| ==> ParentBefore(alloc + kids, k)
    ensures Unnumbered((alloc + kids)[1..]) == Expansion(fs, out + [q[0]])
  {
    var out' := out + [q[0]];
    assert alloc == out' + q[1..] by {
      assert q == [q[0]] + q[1..];
    }
    assert out'[..|out'| - 1] == out;
    assert alloc[|out'| - 1] == q[0];
    GrowParents(fs, alloc, |out'|, kids);
    GrowExpansion(fs, alloc, out', kids);
  }

  /** How the walk ends on a panic: the last node sent is a directory that
      cannot be listed, and the nodes sent so far are numbered, follow their
      parents and begin the expansion. */
  ghost predicate Stops(fs: FS, root: string, out: seq<NNode>, a: Abort)
  {
    && |out| >= 1 && out[0] == RootNode(root)
    && NumberedFrom(out, 1)
    && (forall k :: 0 < k < |out| ==> ParentBefore(out, k))
    && a == Panic(ListingFailed)
    && out[|out| - 1].path != "" && out[|out| - 1].path !in fs.listing
    && Unnumbered(out[1..]) <= Expansion(fs, out)
  }

  lemma Stopped(fs: FS, root: string, alloc: seq<NNode>, out: seq<NNode>, q: seq<NNode>)
    requires q != [] && Inv(fs, root, alloc, out, q, |alloc|)
    requires q[0].path != "" && q[0].path !in fs.listing
    ensures Stops(fs, root, out + [q[0]], Panic(ListingFailed))
  {
    var out' := out + [q[0]];
    assert alloc == out' + q[1..] by {
      assert q == [q[0]] + q[1..];
    }
    assert out'[..|out'| - 1] == out;
    ExpansionSnoc(fs, out');
    assert alloc[..|out'|] == out';
    assert NumberedFrom(out', 1) by {
      forall k | 0 <= k < |out'| ensures out'[k].id == 1 + k {
        assert out'[k] == alloc[k];
      }
    }
    assert Unnumbered(out'[1..]) <= Unnumbered(alloc[1..]) by {
      UnnumberedAppend(out'[1..], q[1..]);
      assert alloc[1..] == out'[1..] + q[1..];
    }
    PrefixParents(alloc, |out'|);
  }

  /** How the walk ends without a panic: the nodes sent are numbered from 1
      from the root, follow their parents, every directory among them was
      listed, and after the root they are exactly the expansion. */
  ghost predicate Completes(fs: FS, root: string, out: seq<NNode>)
  {
    && |out| >= 1 && out[0] == RootNode(root)
    && NumberedFrom(out, 1)
    && (forall k :: 0 < k < |out| ==> ParentBefore(out, k))
    && (forall k :: 0 <= k < |out| && out[k].path != "" ==> out[k].path in fs.listing)
    && Unnumbered(out[1..]) == Expansion(fs, out)
  }

  lemma Finished(fs: FS, root: string, alloc: seq<NNode>, out: seq<NNode>)
    requires Inv(fs, root, alloc, out, [], |alloc|)
    ensures Completes(fs, root, out)
  {
    assert alloc == out;
  }

  /** Children numbered on from the allocated nodes keep the numbering. */
  lemma GrowNumbered(alloc: seq<NNode>, kids: seq<NNode>)
    requires NumberedFrom(alloc, 1) && NumberedFrom(kids, |alloc| + 1)
    ensures NumberedFrom(alloc + kids, 1)
  {
  }

  /** The children of the `n`-th node, a directory, queued after the
      allocated nodes keep every node's parent earlier. */
  lemma GrowParents(fs: FS, alloc: seq<NNode>, n: nat, kids: seq<NNode>)
    requires 1 <= n <= |alloc| && alloc[n - 1].path != "" && alloc[n - 1].id == n
    requires alloc[n - 1].path in fs.listing
    requires forall k :: 0 < k < |alloc| ==> ParentBefore(alloc, k)
    requires Unnumbered(kids) == Children(fs, alloc[n - 1], fs.listing[alloc[n - 1].path])
    ensures forall k :: 0 < k < |alloc + kids| ==> ParentBefore(alloc + kids, k)
  {
    var node := alloc[n - 1];
    forall k | 0 <= k < |kids| ensures kids[k].parentId == n {
      ChildrenParent(fs, node, fs.listing[node.path]);
      assert Unnumbered(kids)[k] in Children(fs, node, fs.listing[node.path]);
    }
    Enqueued(alloc, kids, n);
  }

  /** Queuing the children of the last node sent extends the expansion. */
  lemma GrowExpansion(fs: FS, alloc: seq<NNode>, out: seq<NNode>, kids: seq<NNode>)
    requires 1 <= |alloc| && 1 <= |out|
    requires Unnumbered(alloc[1..]) == Expansion(fs, out[..|out| - 1])
    requires Unnumbered(kids) == Below(fs, out[|out| - 1])
    ensures Unnumbered((alloc + kids)[1..]) == Expansion(fs, out)
  {
    UnnumberedTail(alloc, kids);
    ExpansionSnoc(fs, out);
  }

  lemma ExpansionSnoc(fs: FS, out: seq<NNode>)
    requires 1 <= |out|
    ensures Expansion(fs, out) == Expansion(fs, out[..|out| - 1]) + Below(fs, out[|out| - 1])
  {
  }

  lemma UnnumberedTail(alloc: seq<NNode>, kids: seq<NNode>)
    requires 1 <= |alloc|
    ensures Unnumbered((alloc + kids)[1..]) == Unnumbered(alloc[1..]) + Unnumbered(kids)
  {
    assert (alloc + kids)[1..] == alloc[1..] + kids;
    UnnumberedAppend(alloc[1..], kids);
  }

  /** Every child of `p` names `p` as its parent. */
  lemma {:induction false} ChildrenParent(fs: FS, p: NNode, names: seq<string>)
    ensures forall c :: c in Children(fs, p, names) ==> c.parentId == p.id
  {
    ChildrenSound(fs, p, names);
  }

  /** The weight of a queue does not depend on IDs. */
  lemma {:induction false} WeightUnnumbered(fs: FS, q: seq<NNode>)
    requires ValidFS(fs)
    ensures Weight(fs, Unnumbered(q)) == Weight(fs, q)
  {
    if q != [] {
      assert Unnumbered(q)[1..] == Unnumbered(q[1..]);
      WeightUnnumbered(fs, q[1..]);
    }
  }

  lemma UnnumberedAppend(a: seq<NNode>, b: seq<NNode>)
    ensures Unnumbered(a + b) == Unnumbered(a) + Unnumbered(b)
  {
  }

  /** The parent of the `k`-th node is an earlier directory. */
  predicate ParentBefore(alloc: seq<NNode>, k: nat)
    requires k < |alloc|
  {
    1 <= alloc[k].parentId <= k && alloc[alloc[k].parentId - 1].path != ""
  }

  /** Children enqueued after the node at position `n - 1` keep every node's
      parent earlier. */
  lemma Enqueued(alloc: seq<NNode>, kids: seq<NNode>, n: nat)
    requires 1 <= n <= |alloc| && alloc[n - 1].path != ""
    requires forall k :: 0 < k < |alloc| ==> ParentBefore(alloc, k)
    requires forall k :: 0 <= k < |kids| ==> kids[k].parentId == n
    ensures forall k :: 0 < k < |alloc + kids| ==> ParentBefore(alloc + kids, k)
  {
    forall k | 0 < k < |alloc + kids| ensures ParentBefore(alloc + kids, k) {
      if k < |alloc| {
        assert ParentBefore(alloc, k);
      }
    }
  }

  /** A prefix of the allocated nodes keeps every node's parent earlier. */
  lemma PrefixParents(alloc: seq<NNode>, n: nat)
    requires n <= |alloc|
    requires forall k :: 0 < k < |alloc| ==> ParentBefore(alloc, k)
    ensures forall k :: 0 < k < n ==> ParentBefore(alloc[..n], k)
  {
    forall k | 0 < k < n ensures ParentBefore(alloc[..n], k) {
      assert ParentBefore(alloc, k);
    }
  }

  /** A node the expansion holds comes from one of the nodes expanded. */
  lemma {:induction false} ExpansionFrom(fs: FS, ps: seq<NNode>, c: NNode)
    requires c in Expansion(fs, ps)
    ensures exists i :: 0 <= i < |ps| && c in Below(fs, ps[i])
  {
    var init := ps[..|ps| - 1];
    if c in Expansion(fs, init) {
      ExpansionFrom(fs, init, c);
      var i :| 0 <= i < |init| && c in Below(fs, init[i]);
      assert ps[i] == init[i];
    } else {
      assert c in Below(fs, ps[|ps| - 1]);
    }
  }

  /** The expansion holds every child of every node expanded. */
  lemma {:induction false} ExpansionHas(fs: FS, ps: seq<NNode>, i: nat)
    requires i < |ps|
    ensures forall c :: c in Below(fs, ps[i]) ==> c in Expansion(fs, ps)
  {
    var init := ps[..|ps| - 1];
    if i < |ps| - 1 {
      ExpansionHas(fs, init, i);
      assert ps[i] == init[i];
    }
  }

  /** `c`, without its ID, is the entry one of the names listed for `p`
      becomes. */
  ghost predicate EntryOf(fs: FS, p: NNode, c: NNode)
  {
    p.path != "" && p.path in fs.listing &&
    exists i :: 0 <= i < |fs.listing[p.path]| && Entry(fs, p, fs.listing[p.path][i]) == Some(c.(id := 0))
  }

  /** Every node a walk sent after the root is a kept entry of its parent's
      listing. */
  lemma SentAreEntries(fs: FS, out: seq<NNode>)
    requires NumberedFrom(out, 1) && 1 <= |out|
    requires forall k :: 0 < k < |out| ==> ParentBefore(out, k)
    requires Unnumbered(out[1..]) <= Expansion(fs, out)
    ensures forall k :: 0 < k < |out| ==> ParentBefore(out, k) && EntryOf(fs, out[out[k].parentId - 1], out[k])
  {
    forall k | 0 < k < |out| ensures ParentBefore(out, k) && EntryOf(fs, out[out[k].parentId - 1], out[k]) {
      assert ParentBefore(out, k);
      var c := out[k].(id := 0);
      assert Unnumbered(out[1..])[k - 1] == c;
      assert c in Expansion(fs, out);
      ExpansionFrom(fs, out, c);
      var i :| 0 <= i < |out| && c in Below(fs, out[i]);
      var names := fs.listing[out[i].path];
      ChildrenSound(fs, out[i], names);
      var j :| 0 <= j < |names| && Entry(fs, out[i], names[j]) == Some(c);
    }
  }

  /** Every kept entry of every directory a finished walk sent was sent. */
  lemma EntriesAreSent(fs: FS, out: seq<NNode>)
    requires 1 <= |out| && Unnumbered(out[1..]) == Expansion(fs, out)
    ensures forall i, j ::
      (&& 0 <= i < |out| && out[i].path != "" && out[i].path in fs.listing
       && 0 <= j < |fs.listing[out[i].path]| && Entry(fs, out[i], fs.listing[out[i].path][j]).Some?) ==>
      exists k :: 0 < k < |out| && out[k].(id := 0) == Entry(fs, out[i], fs.listing[out[i].path][j]).value
  {
    forall i, j | 0 <= i < |out| && out[i].path != "" && out[i].path in fs.listing &&
      0 <= j < |fs.listing[out[i].path]| && Entry(fs, out[i], fs.listing[out[i].path][j]).Some?
      ensures exists k :: 0 < k < |out| && out[k].(id := 0) == Entry(fs, out[i], fs.listing[out[i].path][j]).value
    {
      var names := fs.listing[out[i].path];
      var c := Entry(fs, out[i], names[j]).value;
      ChildrenComplete(fs, out[i], names);
      ExpansionHas(fs, out, i);
      assert c in Unnumbered(out[1..]);
      var m :| 0 <= m < |out| - 1 && Unnumbered(out[1..])[m] == c;
      assert out[m + 1].(id := 0) == c;
    }
  }
}
