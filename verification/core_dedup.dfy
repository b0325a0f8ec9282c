/** Duplicate detection straight from a snapshot file (core/dedup.go):
    directory nodes are skipped, the others gathered by hash; a node whose
    hash is known under another size is logged and dropped; at the end the
    groups with more than one node are reported. */
module CoreDedup {
  import opened Base
  import opened Grouping
  import opened CoreNode
  import opened CoreGroup

  /** The `matches` map Dedup builds from the nodes read, in order. The
      dropping policy never stops the loop; the result groups every file
      node by hash, each group holding, in order, the nodes of its hash that
      have the size of the first one. */
  function Matches(nodes: seq<CNode>): (r: HashGroup<CNode>)
    ensures Grouped(r, nodes, NodeView(), Drops)
  {
    DropsNeverAborts(map[], nodes, NodeView());
    FoldGrouped(nodes, NodeView(), Drops);
    Fold(map[], nodes, NodeView(), Drops).value
  }

  /** Every group holds file nodes of its own hash and of its size only, and
      never is empty. */
  lemma OneSizePerGroup(nodes: seq<CNode>)
    ensures forall h :: h in Matches(nodes) ==>
      && Matches(nodes)[h].members != []
      && forall m :: m in Matches(nodes)[h].members ==>
           m in nodes && m.kind != Dir && m.hash == h && m.size == Matches(nodes)[h].size
  {
    var g := Matches(nodes);
    forall h | h in g
      ensures g[h].members != []
      ensures forall m :: m in g[h].members ==> m in nodes && m.kind != Dir && m.hash == h && m.size == g[h].size
    {
      assert GroupedAt(g, nodes, NodeView(), Drops, h);
      KeptSizedMembers(nodes, NodeView(), h, g[h].size);
      KeptMembers(nodes, NodeView(), h);
      var first := Kept(nodes, NodeView(), h)[0];
      assert first in Kept(nodes, NodeView(), h);
      KeptSizedHas(nodes, NodeView(), h, first);
    }
  }

  /** A node whose hash is known under another size leaves the map as it
      was; one that matches its group's size is appended to it. */
  lemma CollisionDropped(nodes: seq<CNode>, n: CNode)
    requires n.kind != Dir && n.hash in Matches(nodes)
    ensures Matches(nodes)[n.hash].size != n.size ==> Matches(nodes + [n]) == Matches(nodes)
    ensures Matches(nodes)[n.hash].size == n.size ==>
      Matches(nodes + [n]) == Matches(nodes)[n.hash := Matches(nodes)[n.hash].(members := Matches(nodes)[n.hash].members + [n])]
  {
    assert (nodes + [n])[..|nodes|] == nodes;
    DropsNeverAborts(map[], nodes, NodeView());
  }

  /** Dedup: the groups with more than one node, in the map's iteration
      order. Each is a set of files of one hash and one size. */
  function Dedup(nodes: seq<CNode>, order: seq<Hash>): (r: seq<Group<CNode>>)
    requires Enumerates(order, Matches(nodes).Keys)
    ensures forall h :: h in Matches(nodes) ==> (Matches(nodes)[h] in r <==> |Matches(nodes)[h].members| > 1)
    ensures forall i :: 0 <= i < |r| ==> |r[i].members| > 1 && r[i] in Matches(nodes).Values
  {
    var g := Matches(nodes);
    OrderSize(order, g.Keys);
    ValuesCover(g, order);
    Duplicates(g, order)
  }
}
