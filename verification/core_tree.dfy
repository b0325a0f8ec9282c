/** The tree of the `core` package revision (core/tree.go): nodes by ID, child
    IDs by parent ID, the reader that fills it from a node iterator, the
    relative-path walk, and the iterator over a built tree. */
module CoreTree {
  import opened Base
  import opened CoreNode

  /** core.Tree. The header passed to NewTree is not kept. */
  datatype Tree = Tree(nodes: map<int, CNode>, children: map<int, seq<int>>)

  /** NewTree: empty maps, whatever the header. */
  function NewTree<I>(info: I): (t: Tree)
    ensures t.nodes == map[] && t.children == map[]
  {
    Tree(map[], map[])
  }

  /** Every node is stored under its own ID, and `children` lists, for each
      parent ID, the IDs of exactly the stored nodes with that parent, each
      once. */
  predicate Indexed(t: Tree)
  {
    && Keyed(t)
    && (forall p, i :: p in t.children && 0 <= i < |t.children[p]| ==>
          t.children[p][i] in t.nodes && t.nodes[t.children[p][i]].parentId == p)
    && (forall p, i, j :: p in t.children && 0 <= i < j < |t.children[p]| ==> t.children[p][i] != t.children[p][j])
    && (forall k :: k in t.nodes ==> t.nodes[k].parentId in t.children && k in t.children[t.nodes[k].parentId])
  }

  /** Every node is stored under its own ID. */
  predicate Keyed(t: Tree)
  {
    forall k :: k in t.nodes ==> t.nodes[k].id == k
  }

  function ChildList(t: Tree, p: int): seq<int>
  {
    if p in t.children then t.children[p] else []
  }

  /** Tree.Add: a panic when the ID is taken; otherwise the node is stored
      under its ID and its ID appended to its parent's child list, and nothing
      else changes. */
  function Add(t: Tree, n: CNode): (r: Outcome<Tree>)
    ensures r.Aborted? <==> n.id in t.nodes
    ensures r.Aborted? ==> r.abort == Panic(AlreadyAdded)
    ensures r.Done? ==>
      && r.value.nodes == t.nodes[n.id := n]
      && r.value.children.Keys == t.children.Keys + {n.parentId}
      && r.value.children[n.parentId] == ChildList(t, n.parentId) + [n.id]
      && (forall p :: p in t.children && p != n.parentId ==> r.value.children[p] == t.children[p])
  {
    if n.id in t.nodes then Aborted(Panic(AlreadyAdded))
    else Done(Tree(t.nodes[n.id := n], t.children[n.parentId := ChildList(t, n.parentId) + [n.id]]))
  }

  lemma AddKeepsIndexed(t: Tree, n: CNode)
    requires Indexed(t)
    requires Add(t, n).Done?
    ensures Indexed(Add(t, n).value)
  {
    var u := Add(t, n).value;
    forall p, i | p in u.children && 0 <= i < |u.children[p]|
      ensures u.children[p][i] in u.nodes && u.nodes[u.children[p][i]].parentId == p
    {
      if p == n.parentId && i == |ChildList(t, p)| {
        assert u.children[p][i] == n.id;
      }
    }
    forall p, i, j | p in u.children && 0 <= i < j < |u.children[p]|
      ensures u.children[p][i] != u.children[p][j]
    {
      if p == n.parentId && j == |ChildList(t, p)| {
        assert u.children[p][i] == ChildList(t, p)[i] && ChildList(t, p)[i] in t.nodes;
      }
    }
    forall k | k in u.nodes
      ensures u.nodes[k].parentId in u.children && k in u.children[u.nodes[k].parentId]
    {
      if k != n.id {
        var p := t.nodes[k].parentId;
        if p == n.parentId {
          assert k in ChildList(t, p);
        }
      } else {
        assert u.children[n.parentId][|ChildList(t, n.parentId)|] == n.id;
      }
    }
  }

  /** No two nodes of `ns` share an ID. */
  predicate UniqueIds(ns: seq<CNode>)
  {
    forall i, j :: 0 <= i < j < |ns| ==> ns[i].id != ns[j].id
  }

  /** No node of `ns` has an ID in `keys`. */
  predicate NoneIn(ns: seq<CNode>, keys: set<int>)
  {
    forall i :: 0 <= i < |ns| ==> ns[i].id !in keys
  }

  /** Tree.ReadIterator over an iterator that yields `ys` and then reports
      `err` from Error(): every yielded node is added in order, and the
      iterator's error is returned. The iterator interface itself is not
      part of this model; only what it yields and reports is. */
  function ReadIterator(t: Tree, ys: seq<CNode>, err: Option<Error>): (r: Outcome<(Tree, Option<Error>)>)
    ensures r.Aborted? ==> r.abort == Panic(AlreadyAdded)
    ensures r.Done? ==> r.value.1 == err
    ensures r.Done? ==> r.value.0.nodes.Keys == t.nodes.Keys + Ids(ys)
    decreases |ys|
  {
    if ys == [] then Done((t, err))
    else match Add(t, ys[0])
      case Aborted(a) => Aborted(a)
      case Done(u) =>
        assert ys == [ys[0]] + ys[1..];
        IdsCons(ys[0], ys[1..]);
        ReadIterator(u, ys[1..], err)
  }

  /** ReadIterator panics exactly when a yielded ID repeats or is already in
      the tree. */
  lemma {:induction false} ReadIteratorAborts(t: Tree, ys: seq<CNode>, err: Option<Error>)
    ensures ReadIterator(t, ys, err).Aborted? <==> !UniqueIds(ys) || !NoneIn(ys, t.nodes.Keys)
    decreases |ys|
  {
    if ys != [] {
      var n := ys[0];
      var rest := ys[1..];
      assert ys == [n] + rest;
      UniqueCons(n, rest);
      NoneInCons(n, rest, t.nodes.Keys);
      if n.id !in t.nodes {
        ReadIteratorAborts(Add(t, n).value, rest, err);
        NoneInUnion(rest, t.nodes.Keys, {n.id});
      }
    }
  }

  /** The IDs of `ns`. */
  function Ids(ns: seq<CNode>): set<int>
  {
    set i | 0 <= i < |ns| :: ns[i].id
  }

  lemma IdsCons(n: CNode, ns: seq<CNode>)
    ensures Ids([n] + ns) == {n.id} + Ids(ns)
  {
    var s := [n] + ns;
    assert s[0] == n;
    forall x | x in Ids(s) ensures x in {n.id} + Ids(ns) {
      var i :| 0 <= i < |s| && s[i].id == x;
      if i > 0 {
        assert s[i] == ns[i - 1];
      }
    }
    forall x | x in Ids(ns) ensures x in Ids(s) {
      var i :| 0 <= i < |ns| && ns[i].id == x;
      assert s[i + 1] == ns[i];
    }
  }



  /** When ReadIterator completes, old nodes stay as they were and every
      yielded node is stored under its ID. */
  lemma {:induction false} ReadIteratorValues(t: Tree, ys: seq<CNode>, err: Option<Error>)
    requires ReadIterator(t, ys, err).Done?
    ensures forall k :: k in t.nodes ==>
      k in ReadIterator(t, ys, err).value.0.nodes && ReadIterator(t, ys, err).value.0.nodes[k] == t.nodes[k]
    ensures forall i :: 0 <= i < |ys| ==>
      ys[i].id in ReadIterator(t, ys, err).value.0.nodes && ReadIterator(t, ys, err).value.0.nodes[ys[i].id] == ys[i]
    decreases |ys|
  {
    if ys != [] {
      var n := ys[0];
      var u := Add(t, n).value;
      var rest := ys[1..];
      ReadIteratorValues(u, rest, err);
      var r := ReadIterator(u, rest, err).value.0;
      assert ReadIterator(t, ys, err).value.0 == r;
      forall i | 0 <= i < |ys| ensures ys[i].id in r.nodes && r.nodes[ys[i].id] == ys[i] {
        if i > 0 {
          assert ys[i] == rest[i - 1];
        } else {
          assert n.id in u.nodes;
        }
      }
    }
  }

  /** ReadIterator keeps a tree indexed. */
  lemma {:induction false} ReadIteratorIndexed(t: Tree, ys: seq<CNode>, err: Option<Error>)
    requires Indexed(t)
    requires ReadIterator(t, ys, err).Done?
    ensures Indexed(ReadIterator(t, ys, err).value.0)
    decreases |ys|
  {
    if ys != [] {
      AddKeepsIndexed(t, ys[0]);
      ReadIteratorIndexed(Add(t, ys[0]).value, ys[1..], err);
    }
  }

  lemma UniqueCons(n: CNode, ns: seq<CNode>)
    ensures UniqueIds([n] + ns) <==> UniqueIds(ns) && NoneIn(ns, {n.id})
  {
    var s := [n] + ns;
    assert s[0] == n;
    assert forall i :: 0 <= i < |ns| ==> s[i + 1] == ns[i];
    if UniqueIds(ns) && NoneIn(ns, {n.id}) {
      forall i, j | 0 <= i < j < |s| ensures s[i].id != s[j].id {
        assert s[j] == ns[j - 1];
        if i > 0 {
          assert s[i] == ns[i - 1];
        }
      }
    }
  }

  lemma NoneInCons(n: CNode, ns: seq<CNode>, keys: set<int>)
    ensures NoneIn([n] + ns, keys) <==> n.id !in keys && NoneIn(ns, keys)
  {
    var s := [n] + ns;
    assert s[0] == n;
    assert forall i :: 0 <= i < |ns| ==> s[i + 1] == ns[i];
  }

  lemma NoneInUnion(ns: seq<CNode>, a: set<int>, b: set<int>)
    ensures NoneIn(ns, a + b) <==> NoneIn(ns, a) && NoneIn(ns, b)
  {
  }

  /** How the RelPath loop ended: at a node with ID 0 with the path built so
      far, at a parent ID missing from the tree, or (for a cyclic parent
      chain) not within the given number of steps. */
  datatype Walk = Reached(path: string) | Missing | Looping

  /** The RelPath loop from node `n` with `path` built so far and at most
      `fuel` more steps: while the ID is positive, prepend the name and move
      to the parent. */
  function RelWalk(t: Tree, n: CNode, path: string, fuel: nat): (r: Walk)
    ensures r.Reached? ==> EndsWith(r.path, path)
    decreases fuel
  {
    if n.id == 0 then Reached(path)
    else if fuel == 0 then Looping
    else if n.parentId !in t.nodes then Missing
    else
      var w := RelWalk(t, t.nodes[n.parentId], Join(n.name, path), fuel - 1);
      if w.Reached? then
        JoinEndsWith(n.name, path);
        EndsWithTransitive(w.path, Join(n.name, path), path);
        w
      else w
  }

  /** Tree.RelPath: the joined names from `n` up to (excluding) the node with
      ID 0, or "" when a parent is missing. None stands for a loop that does
      not end within `fuel` steps, which for a bound too small can also be a
      chain that is merely long. The node with ID 0 has the empty path and is
      never a loop; a non-empty path ends with the node's own name, below a
      parent that is in the tree. */
  function RelPath(t: Tree, n: CNode, fuel: nat): (r: Option<string>)
    ensures n.id == 0 ==> r == Some("")
    ensures r.Some? && r.value != "" ==> n.parentId in t.nodes && EndsWith(r.value, n.name)
  {
    match RelWalk(t, n, "", fuel)
    case Reached(p) => Some(p)
    case Missing => Some("")
    case Looping => None
  }

  /** Without a node of ID 0 in the tree, the loop can only stop at a missing
      parent (or run on): RelPath of a node with a positive ID never returns a
      non-empty path. */
  lemma {:induction false} NoZeroNeverReached(t: Tree, n: CNode, path: string, fuel: nat)
    requires forall k :: k in t.nodes ==> t.nodes[k].id > 0
    requires n.id > 0
    ensures !RelWalk(t, n, path, fuel).Reached?
    decreases fuel
  {
    if fuel > 0 && n.parentId in t.nodes {
      NoZeroNeverReached(t, t.nodes[n.parentId], Join(n.name, path), fuel - 1);
    }
  }

  lemma RelPathWithoutZero(t: Tree, n: CNode, fuel: nat)
    requires forall k :: k in t.nodes ==> t.nodes[k].id > 0
    ensures RelPath(t, n, fuel) == Some("") || RelPath(t, n, fuel).None?
  {
    if n.id > 0 {
      NoZeroNeverReached(t, n, "", fuel);
    }
  }

  /** When every stored node's parent ID is below its own ID, the loop ends
      within (ID + 1) steps. */
  lemma {:induction false} RelWalkEnds(t: Tree, n: CNode, path: string, fuel: nat)
    requires forall k :: k in t.nodes ==> t.nodes[k].id == k && t.nodes[k].parentId < k
    requires n.parentId < n.id || n.id == 0
    requires fuel > n.id
    ensures !RelWalk(t, n, path, fuel).Looping?
    decreases fuel
  {
    if n.id > 0 && n.parentId in t.nodes {
      RelWalkEnds(t, t.nodes[n.parentId], Join(n.name, path), fuel - 1);
    }
  }

  /** The path built so far is only ever appended to: the loop started with
      `path` ends with the loop started empty, joined with `path`. */
  lemma {:induction false} RelWalkAppends(t: Tree, n: CNode, path: string, fuel: nat)
    ensures RelWalk(t, n, path, fuel) ==
      match RelWalk(t, n, "", fuel)
      case Reached(p) => Reached(Join(p, path))
      case other => other
    decreases fuel
  {
    if n.id > 0 && fuel > 0 && n.parentId in t.nodes {
      var p := t.nodes[n.parentId];
      RelWalkAppends(t, p, Join(n.name, path), fuel - 1);
      RelWalkAppends(t, p, n.name, fuel - 1);
      assert Join(n.name, "") == n.name;
      match RelWalk(t, p, "", fuel - 1)
      case Reached(q) => JoinAssociative(q, n.name, path);
      case Missing =>
      case Looping =>
    }
  }

  /** A node's relative path is its parent's joined with its name; when its
      parent's own walk hits a missing parent, so does the node's. */
  lemma RelPathOfChild(t: Tree, c: CNode, fuel: nat)
    requires c.id > 0 && fuel > 0 && c.parentId in t.nodes
    ensures RelWalk(t, t.nodes[c.parentId], "", fuel - 1).Reached? ==>
      RelPath(t, c, fuel) == Some(Join(RelWalk(t, t.nodes[c.parentId], "", fuel - 1).path, c.name))
    ensures RelWalk(t, t.nodes[c.parentId], "", fuel - 1).Missing? ==> RelPath(t, c, fuel) == Some("")
  {
    var p := t.nodes[c.parentId];
    assert Join(c.name, "") == c.name;
    assert RelWalk(t, c, "", fuel) == RelWalk(t, p, c.name, fuel - 1);
    RelWalkAppends(t, p, c.name, fuel - 1);
  }

  /** Tree.IsOK: never true. The error tells whether the two maps differ in
      size or the check is simply not written. */
  function IsOK(t: Tree): (r: (bool, Error))
    ensures !r.0
    ensures r.1 == LengthMismatch <==> |t.nodes| != |t.children|
  {
    if |t.nodes| != |t.children| then (false, LengthMismatch) else (false, Unimplemented)
  }

  /** TreeIterator: the stored nodes in the map's iteration order and the
      index of the current one, -1 before the first Next. */
  datatype TreeIterator = TreeIterator(n: int, nodes: seq<CNode>)

  /** NewTreeIterator: `order` is the order in which ranging over the node map
      visits its keys. */
  function NewTreeIterator(t: Tree, order: seq<int>): (it: TreeIterator)
    requires Enumerates(order, t.nodes.Keys)
    ensures it.n == -1 && |it.nodes| == |t.nodes|
    ensures forall k :: k in t.nodes ==> t.nodes[k] in it.nodes
  {
    OrderSize(order, t.nodes.Keys);
    ValuesCover(t.nodes, order);
    TreeIterator(-1, Values(t.nodes, order))
  }

  /** TreeIterator.Next: move to the next node and tell whether there is one,
      that is, whether Node will now yield one. */
  function Next(it: TreeIterator): (r: (TreeIterator, bool))
    ensures r.0.nodes == it.nodes && r.0.n == it.n + 1
    ensures it.n >= -1 ==> (r.1 <==> Node(r.0).Done?)
  {
    (it.(n := it.n + 1), it.n + 1 < |it.nodes|)
  }

  /** TreeIterator.Node: a panic before the first Next; an index out of range
      once Next has reported false; the current node otherwise. */
  function Node(it: TreeIterator): (r: Outcome<CNode>)
    ensures r.Aborted? <==> !(0 <= it.n < |it.nodes|)
    ensures it.n == -1 ==> r == Aborted(Panic(NextNotCalled))
    ensures r.Done? ==> r.value == it.nodes[it.n]
  {
    if it.n == -1 then Aborted(Panic(NextNotCalled))
    else if it.n < 0 || it.n >= |it.nodes| then Aborted(Panic(IndexOutOfRange))
    else Done(it.nodes[it.n])
  }

  /** TreeIterator.Error: always nil. */
  function Error(it: TreeIterator): (r: Option<Error>)
    ensures r.None?
  {
    None
  }

  /** The ReadIterator loop over a TreeIterator: Next, then Node, until Next
      reports false. It collects every node after the current one, in order. */
  method Drain(it0: TreeIterator) returns (ys: seq<CNode>, it: TreeIterator)
    requires it0.n >= -1
    ensures it0.n + 1 <= |it0.nodes| ==> ys == it0.nodes[it0.n + 1..]
    ensures it0.n + 1 > |it0.nodes| ==> ys == []
    ensures Error(it).None?
  {
    ys := [];
    it := it0;
    while true
      invariant it.nodes == it0.nodes && it.n >= it0.n
      invariant it0.n + 1 <= |it0.nodes| ==> it.n < |it0.nodes| && ys == it0.nodes[it0.n + 1..it.n + 1]
      invariant it0.n + 1 > |it0.nodes| ==> ys == []
      decreases |it.nodes| - it.n
    {
      var step := Next(it);
      it := step.0;
      if !step.1 {
        return;
      }
      var node := Node(it);
      ys := ys + [node.value];
    }
  }

  /** A fresh iterator over a tree whose nodes sit under their own IDs holds
      the stored nodes in the order the keys were visited, so its IDs are that
      order: all different, and all the tree's. */
  lemma IteratorIds(t: Tree, order: seq<int>, ys: seq<CNode>)
    requires Keyed(t)
    requires Enumerates(order, t.nodes.Keys)
    requires ys == Values(t.nodes, order)
    ensures forall i :: 0 <= i < |ys| ==> ys[i].id in t.nodes && t.nodes[ys[i].id] == ys[i]
    ensures UniqueIds(ys)
    ensures Ids(ys) == t.nodes.Keys
  {
    assert forall i :: 0 <= i < |ys| ==> ys[i].id == order[i];
    forall k | k in t.nodes ensures k in Ids(ys) {
      var i :| 0 <= i < |order| && order[i] == k;
      assert ys[i].id == k;
    }
  }

  /** Reading nodes with distinct IDs into a new tree rebuilds the map that
      holds exactly them, each under its ID. */
  lemma ReadIntoNewTree<I>(ys: seq<CNode>, m: map<int, CNode>, info: I, err: Option<Error>)
    requires UniqueIds(ys)
    requires Ids(ys) == m.Keys
    requires forall i :: 0 <= i < |ys| ==> m[ys[i].id] == ys[i]
    ensures ReadIterator(NewTree(info), ys, err).Done?
    ensures ReadIterator(NewTree(info), ys, err).value.1 == err
    ensures ReadIterator(NewTree(info), ys, err).value.0.nodes == m
  {
    assert ReadIterator(NewTree(info), ys, err).Done? by {
      ReadIteratorAborts(NewTree(info), ys, err);
    }
    var r := ReadIterator(NewTree(info), ys, err).value.0;
    assert r.nodes.Keys == m.Keys;
    forall k | k in m ensures r.nodes[k] == m[k] {
      var i :| 0 <= i < |ys| && ys[i].id == k;
      ReadIteratorValues(NewTree(info), ys, err);
    }
  }

  /** A tree iterator yields every stored node exactly once: reading a fresh
      iterator over such a tree into a new tree completes, reports no error
      and rebuilds the same node map. */
  lemma IteratorRebuildsTree<I>(t: Tree, order: seq<int>, info: I, it: TreeIterator)
    requires Keyed(t)
    requires Enumerates(order, t.nodes.Keys)
    requires it == NewTreeIterator(t, order)
    ensures ReadIterator(NewTree(info), it.nodes, Error(it)).Done?
    ensures ReadIterator(NewTree(info), it.nodes, Error(it)).value.1.None?
    ensures ReadIterator(NewTree(info), it.nodes, Error(it)).value.0.nodes == t.nodes
  {
    IteratorIds(t, order, it.nodes);
    ReadIntoNewTree(it.nodes, t.nodes, info, None);
  }
}
