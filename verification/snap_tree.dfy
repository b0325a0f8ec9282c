/** The snapshot tree of the root package (tree.go): an arena from node ID to
    node plus an index from parent ID to the IDs of its children, path
    reconstruction along ParentID links, and the helpers over node lists. */
module SnapTree {
  import opened Base

  /** The only snapshot format version ReadTree accepts. */
  const VERSION: int := 1

  /** The snapshot header. CreatedAt is not modelled. */
  datatype Info = Info(rootPath: string, version: int, nonce: Nonce, hostname: string)

  /** The owning-tree pointer Add stores in a node: the identity of the tree
      (pointer equality in Go) and the nonce its header carried, if any. */
  datatype Owner = Owner(tree: nat, nonce: Option<Nonce>)

  datatype Node = Node(
    id: int,
    parentId: int,
    name: string,
    kind: Kind,
    size: int,
    hash: Hash,
    owner: Option<Owner>)

  datatype Tree = Tree(
    ident: nat,
    info: Option<Info>,
    nodes: map<int, Node>,
    children: map<int, seq<int>>)

  function OwnerOf(t: Tree): Owner
  {
    Owner(t.ident, if t.info.Some? then Some(t.info.value.nonce) else None)
  }

  /** The IDs recorded as children of `p` (an absent entry reads as empty). */
  function ChildIds(t: Tree, p: int): seq<int>
  {
    if p in t.children then t.children[p] else []
  }

  /** The arena and the child index agree: every node sits under its own ID and
      points back to this tree, every node is listed exactly once under its
      parent, and every listed child exists with that parent. */
  ghost predicate Indexed(t: Tree)
  {
    && (forall k :: k in t.nodes ==> t.nodes[k].id == k && t.nodes[k].owner == Some(OwnerOf(t)))
    && (forall k :: k in t.nodes ==> k in ChildIds(t, t.nodes[k].parentId))
    && (forall p, i :: p in t.children && 0 <= i < |t.children[p]| ==>
          t.children[p][i] in t.nodes && t.nodes[t.children[p][i]].parentId == p)
    && (forall p, i, j :: p in t.children && 0 <= i < j < |t.children[p]| ==>
          t.children[p][i] != t.children[p][j])
  }

  /** Every parent ID is smaller than its child's ID, as the walkers assign them. */
  ghost predicate ParentsBelow(t: Tree)
  {
    forall k :: k in t.nodes ==> t.nodes[k].parentId < k
  }

  function NewTree(ident: nat): (t: Tree)
    ensures t.nodes == map[] && t.children == map[] && t.info.None?
    ensures t.ident == ident
    ensures Indexed(t)
  {
    Tree(ident, None, map[], map[])
  }

  /** Tree.Add: stores a node with a fresh ID, records it among its parent's
      children and points it at this tree; a repeated ID panics. */
  function Add(t: Tree, n: Node): (r: Outcome<Tree>)
    ensures r.Aborted? <==> n.id in t.nodes
    ensures r.Aborted? ==> r.abort == Panic(AlreadyAdded)
    ensures r.Done? ==>
      && r.value.ident == t.ident && r.value.info == t.info
      && r.value.nodes.Keys == t.nodes.Keys + {n.id}
      && r.value.nodes[n.id] == n.(owner := Some(OwnerOf(t)))
      && (forall k :: k in t.nodes ==> r.value.nodes[k] == t.nodes[k])
      && r.value.children.Keys == t.children.Keys + {n.parentId}
      && ChildIds(r.value, n.parentId) == ChildIds(t, n.parentId) + [n.id]
      && (forall p :: p != n.parentId ==> ChildIds(r.value, p) == ChildIds(t, p))
  {
    if n.id in t.nodes then Aborted(Panic(AlreadyAdded))
    else
      Done(t.(nodes := t.nodes[n.id := n.(owner := Some(OwnerOf(t)))],
              children := t.children[n.parentId := ChildIds(t, n.parentId) + [n.id]]))
  }

  lemma AddKeepsIndexed(t: Tree, n: Node)
    requires Indexed(t)
    requires n.id !in t.nodes
    ensures Add(t, n).Done? && Indexed(Add(t, n).value)
  {
    var u := Add(t, n).value;
    assert OwnerOf(u) == OwnerOf(t);
    forall p, i | p in u.children && 0 <= i < |u.children[p]|
      ensures u.children[p][i] in u.nodes && u.nodes[u.children[p][i]].parentId == p
    {
      if p == n.parentId && i == |ChildIds(t, p)| {
        assert u.children[p][i] == n.id;
      } else {
        assert u.children[p][i] == ChildIds(t, p)[i];
      }
    }
    forall p, i, j | p in u.children && 0 <= i < j < |u.children[p]|
      ensures u.children[p][i] != u.children[p][j]
    {
      if p == n.parentId && j == |ChildIds(t, p)| {
        assert u.children[p][i] == ChildIds(t, p)[i];
        assert ChildIds(t, p)[i] in t.nodes;
      }
    }
    forall k | k in u.nodes
      ensures k in ChildIds(u, u.nodes[k].parentId)
    {
      if k != n.id {
        assert k in ChildIds(t, t.nodes[k].parentId);
      }
    }
  }

  /** Tree.Root: the node with ID 0, else the node with ID 1, else a panic. */
  function Root(t: Tree): (r: Outcome<Node>)
    ensures r.Done? <==> (0 in t.nodes || 1 in t.nodes)
    ensures r.Aborted? ==> r.abort == Panic(NoRoot)
    ensures r.Done? ==> r.value in t.nodes.Values
    ensures r.Done? && Indexed(t) ==> r.value.id == (if 0 in t.nodes then 0 else 1)
  {
    if 0 in t.nodes then Done(t.nodes[0])
    else if 1 in t.nodes then Done(t.nodes[1])
    else Aborted(Panic(NoRoot))
  }

  /** Tree.ChildrenOf: the nodes whose ParentID is the given node's ID, found by
      scanning the arena in map order `order`; a nil node panics. */
  function ChildrenOf(t: Tree, n: Option<Node>, order: seq<int>): (r: Outcome<seq<Node>>)
    requires Enumerates(order, t.nodes.Keys)
    ensures r.Aborted? <==> n.None?
    ensures r.Done? ==> forall x :: x in r.value ==> x in t.nodes.Values && x.parentId == n.value.id
    ensures r.Done? ==> forall k :: k in t.nodes && t.nodes[k].parentId == n.value.id ==> t.nodes[k] in r.value
    ensures r.Done? ==> |r.value| <= |t.nodes|
  {
    if n.None? then Aborted(Panic(NilNode))
    else
      ValuesCover(t.nodes, order);
      assert |order| == |t.nodes| by { OrderSize(order, t.nodes.Keys); }
      Done(Filter((x: Node) => x.parentId == n.value.id, Values(t.nodes, order)))
  }

  /** ChildrenOf (a scan of the arena) and the child index kept by Add name
      the same children. */
  lemma ChildrenOfMatchesIndex(t: Tree, n: Node, order: seq<int>)
    requires Indexed(t)
    requires Enumerates(order, t.nodes.Keys)
    ensures ChildrenOf(t, Some(n), order).Done?
    ensures (set x | x in ChildrenOf(t, Some(n), order).value :: x.id) == (set i | i in ChildIds(t, n.id))
  {
    var cs := ChildrenOf(t, Some(n), order).value;
    forall x | x in cs ensures x.id in ChildIds(t, n.id) {
      var k :| k in t.nodes && t.nodes[k] == x;
    }
    forall i | i in ChildIds(t, n.id) ensures i in (set x | x in cs :: x.id) {
      var j :| 0 <= j < |t.children[n.id]| && t.children[n.id][j] == i;
      assert t.nodes[i] in cs;
    }
  }

  /** The result of resolving a path: a path, a panic, or a loop that never
      ends (the parent chain is a cycle). */
  datatype Resolved = Resolved(path: string) | Unresolved(abort: Abort) | Diverges

  /** The loop of Tree.RelPath from node `n` with the path built so far; `fuel`
      bounds the number of iterations. */
  function Climb(t: Tree, n: Node, acc: string, fuel: nat): Resolved
    decreases fuel
  {
    if n.id <= 0 then Resolved(acc)
    else if fuel == 0 then Diverges
    else if n.parentId !in t.nodes then Unresolved(Panic(MissingParent))
    else Climb(t, t.nodes[n.parentId], Join(n.name, acc), fuel - 1)
  }

  /** Tree.RelPath: joins the names from `n` up to (excluding) the first node
      with ID 0; panics on a node of another tree or a missing parent. A chain
      longer than the arena runs forever in Go and is reported as Diverges. */
  function RelPath(t: Tree, n: Node): (r: Resolved)
    ensures r == Unresolved(Panic(WrongTree)) <==> n.owner.None? || n.owner.value.tree != t.ident
    ensures n.owner == Some(OwnerOf(t)) && n.id <= 0 ==> r == Resolved("")
    ensures n.owner == Some(OwnerOf(t)) && n.id > 0 && n.parentId !in t.nodes ==>
              r == Unresolved(Panic(MissingParent))
  {
    if n.owner.None? || n.owner.value.tree != t.ident then Unresolved(Panic(WrongTree))
    else
      NoWrongTreeInClimb(t, n, "", |t.nodes| + 1);
      Climb(t, n, "", |t.nodes| + 1)
  }

  lemma NoWrongTreeInClimb(t: Tree, n: Node, acc: string, fuel: nat)
    ensures Climb(t, n, acc, fuel) != Unresolved(Panic(WrongTree))
    decreases fuel
  {
    if n.id > 0 && fuel > 0 && n.parentId in t.nodes {
      NoWrongTreeInClimb(t, t.nodes[n.parentId], Join(n.name, acc), fuel - 1);
    }
  }

  /** Appends `suffix` below a resolved path; other results are unchanged. */
  function Below(r: Resolved, suffix: string): Resolved
  {
    if r.Resolved? then Resolved(Join(r.path, suffix)) else r
  }

  /** The accumulated path only ever ends up below whatever the chain above
      resolves to. */
  lemma {:induction false} ClimbAccumulates(t: Tree, n: Node, acc: string, fuel: nat)
    ensures Climb(t, n, acc, fuel) == Below(Climb(t, n, "", fuel), acc)
    decreases fuel
  {
    if n.id > 0 && fuel > 0 && n.parentId in t.nodes {
      var p := t.nodes[n.parentId];
      ClimbAccumulates(t, p, Join(n.name, acc), fuel - 1);
      ClimbAccumulates(t, p, n.name, fuel - 1);
      var up := Climb(t, p, "", fuel - 1);
      if up.Resolved? {
        JoinAssociative(up.path, n.name, acc);
      }
    }
  }

  /** The number of positive IDs in the arena up to `x`. */
  function Lower(t: Tree, x: int): nat
  {
    |set k | k in t.nodes && 0 < k <= x|
  }

  lemma LowerBounds(t: Tree, a: int, b: int)
    requires a < b && b in t.nodes && b > 0
    ensures Lower(t, a) < Lower(t, b) <= |t.nodes|
  {
    var sa := set k | k in t.nodes && 0 < k <= a;
    var sb := set k | k in t.nodes && 0 < k <= b;
    assert sb == sa + (sb - sa);
    assert b in sb - sa;
    assert t.nodes.Keys == sb + (t.nodes.Keys - sb);
  }

  /** With parents below children, the loop ends within Lower(n.id) steps and
      more fuel changes nothing. */
  lemma {:induction false} ClimbFuel(t: Tree, n: Node, acc: string, f1: nat, f2: nat)
    requires Indexed(t) && ParentsBelow(t)
    requires n.id <= 0 || (n.id in t.nodes && t.nodes[n.id] == n)
    requires f1 >= Lower(t, n.id) && f2 >= Lower(t, n.id)
    ensures Climb(t, n, acc, f1) == Climb(t, n, acc, f2) != Diverges
    decreases f1
  {
    if n.id > 0 {
      LowerBounds(t, n.id - 1, n.id);
      if n.parentId in t.nodes {
        var p := t.nodes[n.parentId];
        assert p.id == n.parentId < n.id;
        if p.id > 0 {
          LowerBounds(t, p.id, n.id);
        }
        ClimbFuel(t, p, Join(n.name, acc), f1 - 1, f2 - 1);
      }
    }
  }

  /** In a tree whose parents sit below their children, RelPath never loops. */
  lemma RelPathTerminates(t: Tree, n: Node)
    requires Indexed(t) && ParentsBelow(t)
    requires n.id in t.nodes && t.nodes[n.id] == n
    ensures RelPath(t, n) != Diverges
  {
    if n.id > 0 {
      LowerBounds(t, n.id - 1, n.id);
    } else {
      assert Lower(t, n.id) == 0 by {
        assert (set k | k in t.nodes && 0 < k <= n.id) == {};
      }
    }
    ClimbFuel(t, n, "", |t.nodes| + 1, |t.nodes| + 1);
  }

  /** The iterative RelPath agrees with the recursive definition: the path of a
      node is its parent's path joined with its own name. */
  lemma RelPathOfChild(t: Tree, n: Node)
    requires Indexed(t) && ParentsBelow(t)
    requires n.id in t.nodes && t.nodes[n.id] == n && n.id > 0
    requires n.parentId in t.nodes
    ensures RelPath(t, n) == Below(RelPath(t, t.nodes[n.parentId]), n.name)
  {
    var p := t.nodes[n.parentId];
    var size := |t.nodes|;
    LowerBounds(t, n.id - 1, n.id);
    assert RelPath(t, n) == Climb(t, p, Join(n.name, ""), size);
    ClimbAccumulates(t, p, n.name, size);
    if p.id > 0 {
      LowerBounds(t, p.id, n.id);
    }
    ClimbFuel(t, p, "", size, size + 1);
  }

  /** A root stored under ID 1 with no node 0 cannot be resolved: the loop only
      stops at ID 0. */
  lemma RootOneDoesNotResolve(t: Tree, n: Node)
    requires n.owner == Some(OwnerOf(t))
    requires n.id == 1 && n.parentId == 0 && 0 !in t.nodes
    ensures RelPath(t, n) == Unresolved(Panic(MissingParent))
  {
  }

  function SumSizes(ns: seq<Node>): int
  {
    if ns == [] then 0 else SumSizes(ns[..|ns| - 1]) + ns[|ns| - 1].size
  }

  /** Nodes.ByteSize: the first node's size times the number of nodes, as an
      int64 product; zero for an empty list. */
  function ByteSize(ns: seq<Node>): (r: int)
    ensures IsInt64(r)
    ensures |ns| == 0 ==> r == 0
  {
    if |ns| < 1 then 0 else WrapI64(ns[0].size * |ns|)
  }

  /** On a group whose members share one size, ByteSize is the total size of
      the group (modulo int64 wrap-around). */
  lemma ByteSizeIsTotal(ns: seq<Node>)
    requires forall i :: 0 <= i < |ns| ==> ns[i].size == ns[0].size
    ensures ByteSize(ns) == WrapI64(SumSizes(ns))
  {
    if |ns| > 0 {
      SumOfEqualSizes(ns, ns[0].size);
    }
  }

  lemma {:induction false} SumOfEqualSizes(ns: seq<Node>, s: int)
    requires forall i :: 0 <= i < |ns| ==> ns[i].size == s
    ensures SumSizes(ns) == s * |ns|
  {
    if ns != [] {
      SumOfEqualSizes(ns[..|ns| - 1], s);
    }
  }

  /** The node belongs to tree `t` (its tree pointer is `t`). */
  predicate OwnedBy(n: Node, t: Tree)
  {
    n.owner.Some? && n.owner.value.tree == t.ident
  }

  /** SplitNodes: the nodes owned by `t`, then the others, each in input order. */
  function SplitNodes(t: Tree, ns: seq<Node>): (r: (seq<Node>, seq<Node>))
    ensures forall x :: x in r.0 ==> OwnedBy(x, t)
    ensures forall x :: x in r.1 ==> !OwnedBy(x, t)
    ensures multiset(r.0) + multiset(r.1) == multiset(ns)
    ensures |r.0| + |r.1| == |ns|
    ensures ReadAt(r.0, ns, Positions(Owns(t), ns))
    ensures ReadAt(r.1, ns, Positions(Not(Owns(t)), ns))
  {
    FilterSplit(Owns(t), ns);
    FilterAtPositions(Owns(t), ns);
    FilterAtPositions(Not(Owns(t)), ns);
    (Filter(Owns(t), ns), Filter(Not(Owns(t)), ns))
  }

  function Owns(t: Tree): Node -> bool
  {
    x => OwnedBy(x, t)
  }
}
