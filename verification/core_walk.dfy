/** The breadth-first walk the two walkers of the `core` package revision
    share (core/cmd_create.go walker, core/walker_source.go WalkFS): a FIFO
    queue seeded with the root under ID 1; each dequeued node is expanded
    (its directory listed and its accepted entries made into child nodes,
    each given the next ID and enqueued), and then sent downstream, unless
    its listing failed. What "expanded" means is each walker's own business
    and is passed in as a function. */
module CoreWalk {
  import opened Base
  import opened FsModel
  import opened CoreNode

  /** What expanding a dequeued node gives: the child nodes, without IDs, or
      None when the directory cannot be listed (the node is then dropped);
      or the program stops. */
  type Expander = CNode -> Outcome<Option<seq<CNode>>>

  /** A finished walk: the nodes sent downstream, in order, and every node
      that was given an ID, in ID order. */
  datatype Walked = Walked(out: seq<CNode>, alloc: seq<CNode>)

  /** The expansion was listed: it yields children and the node is sent. */
  predicate Listed(e: Outcome<Option<seq<CNode>>>)
  {
    e.Done? && e.value.Some?
  }

  /** The children an expansion yields; none when it did not list. */
  function Children(e: Outcome<Option<seq<CNode>>>): seq<CNode>
  {
    if Listed(e) then e.value.value else []
  }

  /** The nodes of `alloc` carry the IDs 1, 2, 3, ... in order. */
  predicate Numbered(alloc: seq<CNode>)
  {
    forall k :: 0 <= k < |alloc| ==> alloc[k].id == k + 1
  }

  /** Every node after the first points to an earlier node as its parent,
      by ID and by pointer. */
  predicate Linked(alloc: seq<CNode>)
  {
    forall k :: 0 < k < |alloc| ==> LinkedAt(alloc, k)
  }

  predicate LinkedAt(alloc: seq<CNode>, k: nat)
    requires k < |alloc|
  {
    0 < alloc[k].parentId <= k && alloc[k].parent == Some(alloc[alloc[k].parentId - 1])
  }

  /** Every node after the first has a parent whose listing succeeded. */
  predicate FromListed(alloc: seq<CNode>, expand: Expander)
  {
    forall k :: 0 < k < |alloc| ==> FromListedAt(alloc, expand, k)
  }

  predicate FromListedAt(alloc: seq<CNode>, expand: Expander, k: nat)
    requires k < |alloc|
  {
    0 < alloc[k].parentId <= k && Listed(expand(alloc[alloc[k].parentId - 1]))
  }

  /** `cs` numbered from `start` on. */
  function Number(cs: seq<CNode>, start: nat): (r: seq<CNode>)
    ensures |r| == |cs|
  {
    seq(|cs|, k requires 0 <= k < |cs| => cs[k].(id := start + k))
  }

  /** `s` with its IDs cleared. */
  function Unnumbered(s: seq<CNode>): (r: seq<CNode>)
    ensures |r| == |s|
  {
    seq(|s|, k requires 0 <= k < |s| => s[k].(id := 0))
  }

  /** The children of the nodes of `ps`, in order: what a FIFO walk
      enqueues while it processes `ps`. */
  function Expansion(ps: seq<CNode>, expand: Expander): seq<CNode>
  {
    if ps == [] then [] else Expansion(ps[..|ps| - 1], expand) + Children(expand(ps[|ps| - 1]))
  }

  /** The nodes of `ps` whose listing succeeded, in order: what the walk
      sends downstream while it processes `ps`. */
  function Emitted(ps: seq<CNode>, expand: Expander): seq<CNode>
  {
    if ps == [] then []
    else Emitted(ps[..|ps| - 1], expand) + (if Listed(expand(ps[|ps| - 1])) then [ps[|ps| - 1]] else [])
  }

  /** How many nodes a queue can still produce (termination measure). */
  ghost function QueueWeight(fs: FS, q: seq<CNode>): nat
    requires ValidFS(fs)
  {
    if q == [] then 0 else Pot(fs, q[0].path) + QueueWeight(fs, q[1..])
  }

  lemma {:induction false} QueueWeightAppend(fs: FS, a: seq<CNode>, b: seq<CNode>)
    requires ValidFS(fs)
    ensures QueueWeight(fs, a + b) == QueueWeight(fs, a) + QueueWeight(fs, b)
  {
    if a != [] {
      assert (a + b)[0] == a[0] && (a + b)[1..] == a[1..] + b;
      QueueWeightAppend(fs, a[1..], b);
      assert QueueWeight(fs, a + b) == Pot(fs, a[0].path) + QueueWeight(fs, a[1..] + b);
    } else {
      assert a + b == b;
    }
  }

  lemma {:induction false} QueueWeightNumber(fs: FS, cs: seq<CNode>, start: nat)
    requires ValidFS(fs)
    ensures QueueWeight(fs, Number(cs, start)) == QueueWeight(fs, cs)
  {
    if cs != [] {
      assert Number(cs, start)[1..] == Number(cs[1..], start + 1);
      QueueWeightNumber(fs, cs[1..], start + 1);
    }
  }

  /** Children as every walker makes them: no ID yet, the parent's ID and
      pointer, no root path, the cached path joined from the parent's; and
      fewer nodes to come below them than below their parent. */
  ghost predicate ChildrenFit(fs: FS, p: CNode, cs: seq<CNode>)
    requires ValidFS(fs)
  {
    && (forall i :: 0 <= i < |cs| ==>
          && cs[i].id == 0 && cs[i].parentId == p.id && cs[i].parent == Some(p)
          && cs[i].rootPath == "" && cs[i].path == Join(p.path, cs[i].name))
    && QueueWeight(fs, cs) < Pot(fs, p.path)
  }

  /** What the walk needs of an expander, for every node it can dequeue. */
  ghost predicate Expands(fs: FS, expand: Expander)
    requires ValidFS(fs)
  {
    forall p: CNode :: ExpandsAt(fs, expand, p)
  }

  /** What the walk needs of an expander at one node. */
  ghost predicate ExpandsAt(fs: FS, expand: Expander, p: CNode)
    requires ValidFS(fs)
  {
    p.id != 0 && PathCached(p) && Listed(expand(p)) ==> ChildrenFit(fs, p, Children(expand(p)))
  }

  /** Queued nodes carry an ID and a truthful cached path. */
  predicate Pending(q: seq<CNode>)
  {
    forall k :: 0 <= k < |q| ==> q[k].id != 0 && PathCached(q[k])
  }

  /** The walk from a queue `q`, with `alloc` the nodes given IDs so far and
      `out` those sent so far: what the loop of Bfs computes. */
  function Walk(fs: FS, expand: Expander, q: seq<CNode>, alloc: seq<CNode>, out: seq<CNode>): Outcome<Walked>
    requires ValidFS(fs) && Expands(fs, expand) && Pending(q)
    decreases QueueWeight(fs, q)
  {
    if q == [] then Done(Walked(out, alloc))
    else
      var e := expand(q[0]);
      if e.Aborted? then Aborted(e.abort)
      else if e.value.None? then Walk(fs, expand, q[1..], alloc, out)
      else
        var kids := Number(e.value.value, |alloc| + 1);
        EnqueuedPending(fs, expand, q, kids, |alloc| + 1);
        Walk(fs, expand, q[1..] + kids, alloc + kids, out + [q[0]])
  }

  /** Enqueueing the children of the head keeps the queue pending, and
      fewer nodes remain to come. */
  lemma EnqueuedPending(fs: FS, expand: Expander, q: seq<CNode>, kids: seq<CNode>, start: nat)
    requires ValidFS(fs) && Expands(fs, expand) && Pending(q) && q != [] && Listed(expand(q[0]))
    requires start >= 1 && kids == Number(Children(expand(q[0])), start)
    ensures Pending(q[1..] + kids)
    ensures QueueWeight(fs, q[1..] + kids) < QueueWeight(fs, q)
  {
    var cs := Children(expand(q[0]));
    assert q[0].id != 0 && PathCached(q[0]);
    assert ExpandsAt(fs, expand, q[0]);
    EnqueuedWeight(fs, q, cs, kids, start);
    forall k | 0 <= k < |kids| ensures kids[k].id != 0 && PathCached(kids[k]) {
      ChildPathCached(q[0], kids[k]);
    }
  }

  /** The walk loop. When an expansion stops the program the walk stops with
      it; otherwise the nodes that were given IDs are the root followed by
      the children of every node in turn (breadth-first order), numbered
      from 1 without gaps, each pointing to an earlier parent whose listing
      succeeded, with truthful cached paths; the nodes sent downstream are
      exactly those whose listing succeeded, in ID order. */
  method Bfs(fs: FS, root: CNode, expand: Expander) returns (r: Outcome<Walked>)
    requires ValidFS(fs) && Expands(fs, expand)
    requires PathCached(root.(id := 1))
    ensures r.Aborted? ==> exists p: CNode :: p.id != 0 && PathCached(p) && expand(p) == Aborted(r.abort)
    ensures r.Done? ==>
      var w := r.value;
      && |w.alloc| >= 1 && w.alloc[0] == root.(id := 1)
      && Numbered(w.alloc) && Linked(w.alloc) && FromListed(w.alloc, expand)
      && (forall k :: 0 <= k < |w.alloc| ==> expand(w.alloc[k]).Done? && PathCached(w.alloc[k]))
      && Unnumbered(w.alloc[1..]) == Expansion(w.alloc, expand)
      && w.out == Emitted(w.alloc, expand)
  {
    var top := root.(id := 1);
    var q := [top];
    var alloc := [top];
    var out := [];
    ghost var goal := Walk(fs, expand, q, alloc, out);
    while q != []
      invariant Pending(q) && Walk(fs, expand, q, alloc, out) == goal
      decreases QueueWeight(fs, q)
    {
      var node := q[0];
      var e := expand(node);
      if e.Aborted? {
        return Aborted(e.abort);
      }
      if e.value.Some? {
        var kids := Number(e.value.value, |alloc| + 1);
        EnqueuedPending(fs, expand, q, kids, |alloc| + 1);
        q := q[1..] + kids;
        alloc := alloc + kids;
        out := out + [node];
      } else {
        q := q[1..];
      }
    }
    r := Done(Walked(out, alloc));
    WalkFromRoot(fs, expand, top);
  }

  /** The walk from the root alone has the properties Bfs promises. */
  lemma WalkFromRoot(fs: FS, expand: Expander, top: CNode)
    requires ValidFS(fs) && Expands(fs, expand) && top.id == 1 && PathCached(top)
    ensures Walk(fs, expand, [top], [top], []).Aborted? ==>
      exists p: CNode :: p.id != 0 && PathCached(p) && expand(p) == Aborted(Walk(fs, expand, [top], [top], []).abort)
    ensures Walk(fs, expand, [top], [top], []).Done? ==>
      var w := Walk(fs, expand, [top], [top], []).value;
      && |w.alloc| >= 1 && w.alloc[0] == top
      && Numbered(w.alloc) && Linked(w.alloc) && FromListed(w.alloc, expand)
      && (forall k :: 0 <= k < |w.alloc| ==> expand(w.alloc[k]).Done? && PathCached(w.alloc[k]))
      && Unnumbered(w.alloc[1..]) == Expansion(w.alloc, expand)
      && w.out == Emitted(w.alloc, expand)
  {
    assert [top][..0] == [];
    assert [top][0..] == [top];
    WalkAborts(fs, expand, [top], [top], []);
    ShapeInvariant(fs, expand, top, [top], 0, []);
    ProgressInvariant(fs, expand, top, [top], 0, []);
    if Walk(fs, expand, [top], [top], []).Done? {
      var w := Walk(fs, expand, [top], [top], []).value;
      assert w.alloc[..|w.alloc|] == w.alloc;
    }
  }

  /** A walk stops only on an expansion of a queued node that stops. */
  lemma {:induction false} WalkAborts(fs: FS, expand: Expander, q: seq<CNode>, alloc: seq<CNode>, out: seq<CNode>)
    requires ValidFS(fs) && Expands(fs, expand) && Pending(q)
    ensures Walk(fs, expand, q, alloc, out).Aborted? ==>
      exists p: CNode :: p.id != 0 && PathCached(p) && expand(p) == Aborted(Walk(fs, expand, q, alloc, out).abort)
    decreases QueueWeight(fs, q)
  {
    if q != [] {
      var e := expand(q[0]);
      assert q[0].id != 0 && PathCached(q[0]);
      if e.Done? && e.value.None? {
        WalkAborts(fs, expand, q[1..], alloc, out);
      } else if e.Done? {
        var kids := Number(e.value.value, |alloc| + 1);
        EnqueuedPending(fs, expand, q, kids, |alloc| + 1);
        WalkAborts(fs, expand, q[1..] + kids, alloc + kids, out + [q[0]]);
      }
    }
  }

  /** The shape of the nodes given IDs: the root first, numbered from 1,
      each later node linked to an earlier parent whose listing succeeded,
      every cached path truthful. */
  ghost predicate WalkShape(expand: Expander, top: CNode, alloc: seq<CNode>)
  {
    && 1 <= |alloc| && alloc[0] == top
    && Numbered(alloc) && Linked(alloc) && FromListed(alloc, expand)
    && (forall k :: 0 <= k < |alloc| ==> PathCached(alloc[k]))
  }

  /** The progress after the first `head` nodes were processed: none of
      them stopped the program, the nodes after the root are their children
      in order, and the nodes sent are those of them that listed. */
  ghost predicate WalkProgress(expand: Expander, alloc: seq<CNode>, head: nat, out: seq<CNode>)
  {
    && 1 <= |alloc| && head <= |alloc|
    && (forall k :: 0 <= k < head ==> expand(alloc[k]).Done?)
    && Unnumbered(alloc[1..]) == Expansion(alloc[..head], expand)
    && out == Emitted(alloc[..head], expand)
  }

  /** A walk resumed from a well-shaped state ends in a well-shaped one. */
  lemma {:induction false} ShapeInvariant(fs: FS, expand: Expander, top: CNode, alloc: seq<CNode>, head: nat, out: seq<CNode>)
    requires ValidFS(fs) && Expands(fs, expand) && WalkShape(expand, top, alloc) && head <= |alloc|
    ensures Pending(alloc[head..])
    ensures Walk(fs, expand, alloc[head..], alloc, out).Done? ==>
      WalkShape(expand, top, Walk(fs, expand, alloc[head..], alloc, out).value.alloc)
    decreases QueueWeight(fs, alloc[head..]), 1
  {
    InvPending(expand, top, alloc, head);
    if head < |alloc| && expand(alloc[head]).Done? {
      ShapeStep(fs, expand, top, alloc, head, out);
    }
  }

  /** The step of ShapeInvariant at a node that does not stop the program. */
  lemma {:induction false} ShapeStep(fs: FS, expand: Expander, top: CNode, alloc: seq<CNode>, head: nat, out: seq<CNode>)
    requires ValidFS(fs) && Expands(fs, expand) && WalkShape(expand, top, alloc) && head < |alloc|
    requires expand(alloc[head]).Done? && Pending(alloc[head..])
    ensures Walk(fs, expand, alloc[head..], alloc, out).Done? ==>
      WalkShape(expand, top, Walk(fs, expand, alloc[head..], alloc, out).value.alloc)
    decreases QueueWeight(fs, alloc[head..]), 0
  {
    var q := alloc[head..];
    assert q[0] == alloc[head] && q[1..] == alloc[head + 1..];
    var r := Walk(fs, expand, q, alloc, out);
    if expand(alloc[head]).value.None? {
      assert r == Walk(fs, expand, alloc[head + 1..], alloc, out);
      ShapeInvariant(fs, expand, top, alloc, head + 1, out);
      assert r.Done? ==> WalkShape(expand, top, r.value.alloc);
    } else {
      var kids := ShapeListedStep(fs, expand, top, alloc, head, out);
      assert r == Walk(fs, expand, (alloc + kids)[head + 1..], alloc + kids, out + [alloc[head]]);
      ShapeInvariant(fs, expand, top, alloc + kids, head + 1, out + [alloc[head]]);
      assert r.Done? ==> WalkShape(expand, top, r.value.alloc);
    }
  }

  /** The state after a node lists its children, as Walk continues it. */
  lemma ShapeListedStep(fs: FS, expand: Expander, top: CNode, alloc: seq<CNode>, head: nat, out: seq<CNode>)
      returns (kids: seq<CNode>)
    requires ValidFS(fs) && Expands(fs, expand) && WalkShape(expand, top, alloc) && head < |alloc|
    requires Listed(expand(alloc[head])) && Pending(alloc[head..])
    ensures kids == Number(Children(expand(alloc[head])), |alloc| + 1)
    ensures WalkShape(expand, top, alloc + kids) && Pending((alloc + kids)[head + 1..])
    ensures QueueWeight(fs, (alloc + kids)[head + 1..]) < QueueWeight(fs, alloc[head..])
    ensures Walk(fs, expand, alloc[head..], alloc, out) ==
      Walk(fs, expand, (alloc + kids)[head + 1..], alloc + kids, out + [alloc[head]])
  {
    var q := alloc[head..];
    assert q[0] == alloc[head];
    var cs := Children(expand(alloc[head]));
    kids := Number(cs, |alloc| + 1);
    InvFits(fs, expand, top, alloc, head);
    ShapeListed(fs, expand, top, alloc, head, cs, kids);
    EnqueuedWeight(fs, q, cs, kids, |alloc| + 1);
    SliceAppend(alloc, kids, head);
    InvPending(expand, top, alloc + kids, head + 1);
  }

  /** A walk resumed from a well-shaped state with some progress ends with
      every node processed. */
  lemma {:induction false} ProgressInvariant(fs: FS, expand: Expander, top: CNode, alloc: seq<CNode>, head: nat, out: seq<CNode>)
    requires ValidFS(fs) && Expands(fs, expand) && WalkShape(expand, top, alloc) && WalkProgress(expand, alloc, head, out)
    ensures Pending(alloc[head..])
    ensures Walk(fs, expand, alloc[head..], alloc, out).Done? ==>
      var w := Walk(fs, expand, alloc[head..], alloc, out).value;
      WalkProgress(expand, w.alloc, |w.alloc|, w.out)
    decreases QueueWeight(fs, alloc[head..]), 1
  {
    InvPending(expand, top, alloc, head);
    if head == |alloc| {
      assert alloc[head..] == [];
    } else if expand(alloc[head]).Done? {
      ProgressStep(fs, expand, top, alloc, head, out);
    }
  }

  /** The step of ProgressInvariant at a node that does not stop the
      program. */
  lemma {:induction false} ProgressStep(fs: FS, expand: Expander, top: CNode, alloc: seq<CNode>, head: nat, out: seq<CNode>)
    requires ValidFS(fs) && Expands(fs, expand) && WalkShape(expand, top, alloc) && WalkProgress(expand, alloc, head, out)
    requires head < |alloc| && expand(alloc[head]).Done? && Pending(alloc[head..])
    ensures Walk(fs, expand, alloc[head..], alloc, out).Done? ==>
      var w := Walk(fs, expand, alloc[head..], alloc, out).value;
      WalkProgress(expand, w.alloc, |w.alloc|, w.out)
    decreases QueueWeight(fs, alloc[head..]), 0
  {
    var q := alloc[head..];
    assert q[0] == alloc[head] && q[1..] == alloc[head + 1..];
    var r := Walk(fs, expand, q, alloc, out);
    if expand(alloc[head]).value.None? {
      ProgressDropped(expand, alloc, head, out);
      assert r == Walk(fs, expand, alloc[head + 1..], alloc, out);
      ProgressInvariant(fs, expand, top, alloc, head + 1, out);
      assert r.Done? ==> WalkProgress(expand, r.value.alloc, |r.value.alloc|, r.value.out);
    } else {
      var kids := ShapeListedStep(fs, expand, top, alloc, head, out);
      InvFits(fs, expand, top, alloc, head);
      ProgressListed(expand, alloc, head, out, Children(expand(alloc[head])), kids);
      ProgressInvariant(fs, expand, top, alloc + kids, head + 1, out + [alloc[head]]);
      assert r.Done? ==> WalkProgress(expand, r.value.alloc, |r.value.alloc|, r.value.out);
    }
  }

  /** In a well-shaped state the unprocessed nodes are pending ... */
  lemma InvPending(expand: Expander, top: CNode, alloc: seq<CNode>, head: nat)
    requires WalkShape(expand, top, alloc) && head <= |alloc|
    ensures Pending(alloc[head..])
  {
    var q := alloc[head..];
    forall k | 0 <= k < |q| ensures q[k].id != 0 && PathCached(q[k]) {
      assert q[k] == alloc[head + k];
    }
  }

  /** ... and the next one, if listed, yields children that fit. */
  lemma InvFits(fs: FS, expand: Expander, top: CNode, alloc: seq<CNode>, head: nat)
    requires ValidFS(fs) && Expands(fs, expand) && WalkShape(expand, top, alloc)
    requires head < |alloc| && Listed(expand(alloc[head]))
    ensures ChildrenFit(fs, alloc[head], Children(expand(alloc[head])))
  {
    assert alloc[head].id != 0 && PathCached(alloc[head]);
    assert ExpandsAt(fs, expand, alloc[head]);
  }

  /** Enqueueing the children a node lists keeps the shape. */
  lemma ShapeListed(fs: FS, expand: Expander, top: CNode, alloc: seq<CNode>, head: nat, cs: seq<CNode>, kids: seq<CNode>)
    requires ValidFS(fs) && WalkShape(expand, top, alloc) && head < |alloc|
    requires Listed(expand(alloc[head])) && cs == Children(expand(alloc[head]))
    requires ChildrenFit(fs, alloc[head], cs) && kids == Number(cs, |alloc| + 1)
    ensures WalkShape(expand, top, alloc + kids)
  {
    var a := alloc + kids;
    assert a[0] == top;
    assert Numbered(a) by { EnqueuedNumbered(alloc, cs, kids); }
    assert Linked(a) by { EnqueuedLinked(alloc, head, cs, kids); }
    assert FromListed(a, expand) by { EnqueuedFromListed(alloc, head, expand, cs, kids); }
    assert forall k :: 0 <= k < |a| ==> PathCached(a[k]) by { EnqueuedPaths(alloc, head, cs, kids); }
  }

  /** Processing a node that lists children `cs`: they extend the
      expansion and the node is sent. */
  lemma ProgressListed(expand: Expander, alloc: seq<CNode>, head: nat, out: seq<CNode>, cs: seq<CNode>, kids: seq<CNode>)
    requires WalkProgress(expand, alloc, head, out) && head < |alloc|
    requires Listed(expand(alloc[head])) && cs == Children(expand(alloc[head]))
    requires (forall i :: 0 <= i < |cs| ==> cs[i].id == 0) && kids == Number(cs, |alloc| + 1)
    ensures WalkProgress(expand, alloc + kids, head + 1, out + [alloc[head]])
  {
    var a := alloc + kids;
    assert a[..head + 1] == alloc[..head + 1];
    EnqueuedInOrder(alloc, head, expand, cs, kids);
    Processed(alloc, head, expand);
    forall k | 0 <= k < head + 1 ensures expand(a[k]).Done? {
      assert a[k] == alloc[k];
    }
  }

  /** Processing a node that could not be listed: nothing is enqueued and
      the node is dropped. */
  lemma ProgressDropped(expand: Expander, alloc: seq<CNode>, head: nat, out: seq<CNode>)
    requires WalkProgress(expand, alloc, head, out) && head < |alloc|
    requires expand(alloc[head]).Done? && !Listed(expand(alloc[head]))
    ensures WalkProgress(expand, alloc, head + 1, out)
  {
    Processed(alloc, head, expand);
  }

  /** The children enqueued continue the numbering ... */
  lemma EnqueuedNumbered(alloc: seq<CNode>, cs: seq<CNode>, kids: seq<CNode>)
    requires Numbered(alloc) && kids == Number(cs, |alloc| + 1)
    ensures Numbered(alloc + kids)
  {
    var a := alloc + kids;
    forall k | |alloc| <= k < |a| ensures a[k].id == k + 1 {
      assert a[k] == kids[k - |alloc|];
    }
  }

  /** ... point to the node being processed ... */
  lemma EnqueuedLinked(alloc: seq<CNode>, head: nat, cs: seq<CNode>, kids: seq<CNode>)
    requires head < |alloc| && Numbered(alloc) && Linked(alloc)
    requires forall i :: 0 <= i < |cs| ==> cs[i].parentId == alloc[head].id && cs[i].parent == Some(alloc[head])
    requires kids == Number(cs, |alloc| + 1)
    ensures Linked(alloc + kids)
  {
    var a := alloc + kids;
    forall k | 0 < k < |a| ensures LinkedAt(a, k) {
      if k < |alloc| {
        assert LinkedAt(alloc, k);
        assert a[alloc[k].parentId - 1] == alloc[alloc[k].parentId - 1];
      } else {
        assert a[k] == cs[k - |alloc|].(id := k + 1);
        assert a[head] == alloc[head];
      }
    }
  }

  /** ... whose listing succeeded. */
  lemma EnqueuedFromListed(alloc: seq<CNode>, head: nat, expand: Expander, cs: seq<CNode>, kids: seq<CNode>)
    requires head < |alloc| && Numbered(alloc) && FromListed(alloc, expand) && Listed(expand(alloc[head]))
    requires forall i :: 0 <= i < |cs| ==> cs[i].parentId == alloc[head].id
    requires kids == Number(cs, |alloc| + 1)
    ensures FromListed(alloc + kids, expand)
  {
    var a := alloc + kids;
    forall k | 0 < k < |a| ensures FromListedAt(a, expand, k) {
      if k < |alloc| {
        assert FromListedAt(alloc, expand, k);
        assert a[alloc[k].parentId - 1] == alloc[alloc[k].parentId - 1];
      } else {
        assert a[k] == cs[k - |alloc|].(id := k + 1);
        assert a[head] == alloc[head];
      }
    }
  }

  /** ... and so do the truthful cached paths. */
  lemma EnqueuedPaths(alloc: seq<CNode>, head: nat, cs: seq<CNode>, kids: seq<CNode>)
    requires head < |alloc| && forall k :: 0 <= k < |alloc| ==> PathCached(alloc[k])
    requires forall i :: 0 <= i < |cs| ==>
      cs[i].parent == Some(alloc[head]) && cs[i].rootPath == "" && cs[i].path == Join(alloc[head].path, cs[i].name)
    requires kids == Number(cs, |alloc| + 1)
    ensures forall k :: 0 <= k < |alloc + kids| ==> PathCached((alloc + kids)[k])
  {
    var a := alloc + kids;
    forall k | |alloc| <= k < |a| ensures PathCached(a[k]) {
      assert a[k] == cs[k - |alloc|].(id := k + 1);
      ChildPathCached(alloc[head], a[k]);
    }
  }

  /** A child linked to a node with a truthful cached path, whose own cached
      path is joined from it, has a truthful cached path. */
  lemma ChildPathCached(p: CNode, c: CNode)
    requires PathCached(p)
    requires c.parent == Some(p) && c.rootPath == "" && c.path == Join(p.path, c.name)
    ensures PathCached(c)
  {
  }

  /** Replacing the head of a queue by the children it lists leaves fewer
      nodes to come. */
  lemma EnqueuedWeight(fs: FS, q: seq<CNode>, cs: seq<CNode>, kids: seq<CNode>, start: nat)
    requires ValidFS(fs) && q != [] && QueueWeight(fs, cs) < Pot(fs, q[0].path)
    requires kids == Number(cs, start)
    ensures QueueWeight(fs, q[1..] + kids) < QueueWeight(fs, q)
  {
    QueueWeightNumber(fs, cs, start);
    QueueWeightAppend(fs, q[1..], kids);
  }

  lemma SliceAppend<T>(a: seq<T>, b: seq<T>, i: nat)
    requires i < |a|
    ensures (a + b)[i + 1..] == a[i..][1..] + b
  {
  }

  /** The children enqueued extend the expansion. */
  lemma EnqueuedInOrder(alloc: seq<CNode>, head: nat, expand: Expander, cs: seq<CNode>, kids: seq<CNode>)
    requires 1 <= head + 1 <= |alloc| && Listed(expand(alloc[head])) && cs == Children(expand(alloc[head]))
    requires forall i :: 0 <= i < |cs| ==> cs[i].id == 0
    requires kids == Number(cs, |alloc| + 1)
    requires Unnumbered(alloc[1..]) == Expansion(alloc[..head], expand)
    ensures Unnumbered((alloc + kids)[1..]) == Expansion(alloc[..head + 1], expand)
  {
    assert Unnumbered(kids) == cs;
    assert (alloc + kids)[1..] == alloc[1..] + kids;
    assert Unnumbered(alloc[1..] + kids) == Unnumbered(alloc[1..]) + Unnumbered(kids);
    assert alloc[..head + 1][..head] == alloc[..head];
  }

  /** Processing one more node extends the sent nodes accordingly. */
  lemma Processed(alloc: seq<CNode>, head: nat, expand: Expander)
    requires head < |alloc|
    ensures Emitted(alloc[..head + 1], expand) ==
      Emitted(alloc[..head], expand) + (if Listed(expand(alloc[head])) then [alloc[head]] else [])
    ensures Expansion(alloc[..head + 1], expand) == Expansion(alloc[..head], expand) + Children(expand(alloc[head]))
    ensures alloc[head + 1..] == alloc[head..][1..]
  {
    assert alloc[..head + 1][..head] == alloc[..head];
  }

  /** A prefix of a numbered sequence is numbered. */
  lemma NumberedPrefix(ps: seq<CNode>, n: nat)
    requires Numbered(ps) && n <= |ps|
    ensures Numbered(ps[..n])
  {
    forall k | 0 <= k < n ensures ps[..n][k].id == k + 1 {
      assert ps[..n][k] == ps[k];
    }
  }

  /** The sent nodes are listed nodes of `ps`, each found at its ID's
      place ... */
  lemma {:induction false} EmittedPlaced(ps: seq<CNode>, expand: Expander)
    requires Numbered(ps)
    ensures forall j :: 0 <= j < |Emitted(ps, expand)| ==>
      var n := Emitted(ps, expand)[j]; 1 <= n.id <= |ps| && ps[n.id - 1] == n && Listed(expand(n))
    decreases |ps|
  {
    if ps != [] {
      var init := ps[..|ps| - 1];
      var last := ps[|ps| - 1];
      NumberedPrefix(ps, |ps| - 1);
      EmittedPlaced(init, expand);
      var e0 := Emitted(init, expand);
      var e := Emitted(ps, expand);
      assert e == e0 + (if Listed(expand(last)) then [last] else []);
      forall j | 0 <= j < |e|
        ensures 1 <= e[j].id <= |ps| && ps[e[j].id - 1] == e[j] && Listed(expand(e[j]))
      {
        if j < |e0| {
          assert e[j] == e0[j] && init[e0[j].id - 1] == e0[j];
        }
      }
    }
  }

  /** ... in increasing ID order ... */
  lemma {:induction false} EmittedIncreasing(ps: seq<CNode>, expand: Expander)
    requires Numbered(ps)
    ensures forall i, j :: 0 <= i < j < |Emitted(ps, expand)| ==> Emitted(ps, expand)[i].id < Emitted(ps, expand)[j].id
    decreases |ps|
  {
    if ps != [] {
      var init := ps[..|ps| - 1];
      var last := ps[|ps| - 1];
      NumberedPrefix(ps, |ps| - 1);
      EmittedIncreasing(init, expand);
      EmittedPlaced(init, expand);
      var e0 := Emitted(init, expand);
      var e := Emitted(ps, expand);
      assert e == e0 + (if Listed(expand(last)) then [last] else []);
      assert last.id == |ps|;
      forall i, j | 0 <= i < j < |e| ensures e[i].id < e[j].id {
        assert e[i] == e0[i];
        if j < |e0| {
          assert e[j] == e0[j];
        }
      }
    }
  }

  /** ... and every listed node of `ps` is sent. */
  lemma {:induction false} EmittedComplete(ps: seq<CNode>, expand: Expander)
    ensures forall k :: 0 <= k < |ps| && Listed(expand(ps[k])) ==> ps[k] in Emitted(ps, expand)
    decreases |ps|
  {
    if ps != [] {
      var init := ps[..|ps| - 1];
      EmittedComplete(init, expand);
      var e0 := Emitted(init, expand);
      var e := Emitted(ps, expand);
      assert e == e0 + (if Listed(expand(ps[|ps| - 1])) then [ps[|ps| - 1]] else []);
      forall k | 0 <= k < |ps| && Listed(expand(ps[k])) ensures ps[k] in e {
        if k < |init| {
          assert ps[k] == init[k] && init[k] in e0;
        }
      }
    }
  }

  /** In a finished walk, every sent node other than the root has its
      parent sent before it. */
  lemma ParentsSentFirst(alloc: seq<CNode>, expand: Expander)
    requires 1 <= |alloc| && alloc[0].parentId == 0
    requires Numbered(alloc) && FromListed(alloc, expand)
    ensures var out := Emitted(alloc, expand);
      forall j :: 0 <= j < |out| && out[j].parentId != 0 ==>
        exists i :: 0 <= i < j && out[i].id == out[j].parentId
  {
    var out := Emitted(alloc, expand);
    EmittedPlaced(alloc, expand);
    EmittedIncreasing(alloc, expand);
    EmittedComplete(alloc, expand);
    forall j | 0 <= j < |out| && out[j].parentId != 0
      ensures exists i :: 0 <= i < j && out[i].id == out[j].parentId
    {
      var k := out[j].id - 1;
      assert alloc[k] == out[j] && k != 0;
      assert FromListedAt(alloc, expand, k);
      var p := alloc[out[j].parentId - 1];
      assert p in out;
      var i :| 0 <= i < |out| && out[i] == p;
      assert out[i].id == out[j].parentId;
      assert i < j;
    }
  }

  /** Every node of the expansion of `ps` is a child of a node of `ps`. */
  lemma {:induction false} ExpansionFrom(ps: seq<CNode>, expand: Expander, x: CNode)
    requires x in Expansion(ps, expand)
    ensures exists i :: 0 <= i < |ps| && x in Children(expand(ps[i]))
    decreases |ps|
  {
    var init := ps[..|ps| - 1];
    if x in Expansion(init, expand) {
      ExpansionFrom(init, expand, x);
      var i :| 0 <= i < |init| && x in Children(expand(init[i]));
      assert init[i] == ps[i];
    } else {
      assert x in Children(expand(ps[|ps| - 1]));
    }
  }

  /** Every child of a node of `ps` is in the expansion of `ps`. */
  lemma {:induction false} ExpansionHas(ps: seq<CNode>, expand: Expander, i: nat, x: CNode)
    requires i < |ps| && x in Children(expand(ps[i]))
    ensures x in Expansion(ps, expand)
    decreases |ps|
  {
    var init := ps[..|ps| - 1];
    if i < |init| {
      assert init[i] == ps[i];
      ExpansionHas(init, expand, i, x);
    }
  }

  /** In a finished walk every child an allocated node listed was given an
      ID: but for its ID, it follows the root in `alloc`. */
  lemma AllocatesChildren(alloc: seq<CNode>, expand: Expander, i: nat, x: CNode)
    requires 1 <= |alloc| && Unnumbered(alloc[1..]) == Expansion(alloc, expand)
    requires i < |alloc| && x in Children(expand(alloc[i]))
    ensures x in Unnumbered(alloc[1..])
  {
    ExpansionHas(alloc, expand, i, x);
  }

  /** In a finished walk every node after the root is, but for its ID, a
      child some allocated node listed. */
  lemma AllocatedFrom(alloc: seq<CNode>, expand: Expander, k: nat)
    requires 1 <= k < |alloc| && Unnumbered(alloc[1..]) == Expansion(alloc, expand)
    ensures exists i :: 0 <= i < |alloc| && alloc[k].(id := 0) in Children(expand(alloc[i]))
  {
    assert Unnumbered(alloc[1..])[k - 1] == alloc[k].(id := 0);
    ExpansionFrom(alloc, expand, alloc[k].(id := 0));
  }

  /** When a node is listed exactly when `sent` holds of it, the nodes a
      finished walk sends are the allocated nodes `sent` holds of, in ID
      order. */
  lemma SentWhere(alloc: seq<CNode>, expand: Expander, sent: CNode -> bool)
    requires Numbered(alloc)
    requires forall k :: 0 <= k < |alloc| ==> (Listed(expand(alloc[k])) <==> sent(alloc[k]))
    ensures forall n :: n in Emitted(alloc, expand) <==> n in alloc && sent(n)
    ensures forall i, j :: 0 <= i < j < |Emitted(alloc, expand)| ==>
      Emitted(alloc, expand)[i].id < Emitted(alloc, expand)[j].id
  {
    var out := Emitted(alloc, expand);
    EmittedPlaced(alloc, expand);
    EmittedIncreasing(alloc, expand);
    EmittedComplete(alloc, expand);
    forall n | n in out ensures n in alloc && sent(n) {
      var j :| 0 <= j < |out| && out[j] == n;
      assert alloc[n.id - 1] == n;
    }
    forall n | n in alloc && sent(n) ensures n in out {
      var k :| 0 <= k < |alloc| && alloc[k] == n;
    }
  }
}
