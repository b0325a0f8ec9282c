/** Reading a snapshot file back (tree.go ReadTree and DecodeNodes). The gob
    decoder is a stream of decode results: the header first, then one result
    per node. */
module TreeReader {
  import opened Base
  import ST = SnapTree

  /** What DecodeNodes did: the nodes it handed to the callback, in order, and
      the error it returned. */
  datatype Run = Run(handled: seq<ST.Node>, err: Option<Error>)

  /** DecodeNodes: decode nodes until io.EOF, handing each to `hf`; the first
      decode error or callback error is returned and nothing after it is read. */
  function DecodeNodes(recs: seq<Read<ST.Node>>, hf: ST.Node -> Option<Error>): (r: Run)
    ensures |r.handled| <= |recs|
    ensures forall i :: 0 <= i < |r.handled| ==> recs[i] == Got(r.handled[i])
    ensures forall i :: 0 <= i < |r.handled| - 1 ==> hf(r.handled[i]).None?
    ensures r.err.None? ==>
      && (forall i :: 0 <= i < |r.handled| ==> hf(r.handled[i]).None?)
      && (|r.handled| == |recs| || recs[|r.handled|] == Failed(Eof))
    ensures r.err.Some? ==>
      || (r.handled != [] && hf(r.handled[|r.handled| - 1]) == r.err)
      || (&& |r.handled| < |recs| && recs[|r.handled|] == Failed(r.err.value) && r.err.value != Eof
          && forall i :: 0 <= i < |r.handled| ==> hf(r.handled[i]).None?)
  {
    if recs == [] then Run([], None)
    else match recs[0]
      case Failed(e) => if e == Eof then Run([], None) else Run([], Some(e))
      case Got(n) =>
        if hf(n).Some? then Run([n], hf(n))
        else
          var rest := DecodeNodes(recs[1..], hf);
          Run([n] + rest.handled, rest.err)
  }

  /** The callback ReadTree passes to DecodeNodes never fails. */
  function NeverFails(n: ST.Node): Option<Error>
  {
    None
  }

  /** ReadTree: decode the header (an error there returns the empty tree with
      that error), insist on format version 1, then add every decoded node
      to the tree. */
  function ReadTree(ident: nat, header: Read<ST.Info>, recs: seq<Read<ST.Node>>): (r: Outcome<(ST.Tree, Option<Error>)>)
    ensures header.Failed? ==> r == Done((ST.NewTree(ident), Some(header.err)))
    ensures r == Aborted(Panic(BadVersion)) <==> header.Got? && header.value.version != ST.VERSION
    ensures r.Done? && header.Got? ==> r.value.0.info == Some(header.value) && r.value.0.ident == ident
  {
    match header
    case Failed(e) => Done((ST.NewTree(ident), Some(e)))
    case Got(i) =>
      if i.version != ST.VERSION then Aborted(Panic(BadVersion))
      else AddNodes(ST.NewTree(ident).(info := Some(i)), recs)
  }

  /** The DecodeNodes loop of ReadTree, whose callback is Tree.Add. */
  function AddNodes(t: ST.Tree, recs: seq<Read<ST.Node>>): (r: Outcome<(ST.Tree, Option<Error>)>)
    ensures r.Aborted? ==> r.abort == Panic(AlreadyAdded)
    ensures r.Done? ==> r.value.0.ident == t.ident && r.value.0.info == t.info
    decreases |recs|
  {
    if recs == [] then Done((t, None))
    else match recs[0]
      case Failed(e) => Done((t, if e == Eof then None else Some(e)))
      case Got(n) =>
        match ST.Add(t, n)
        case Aborted(a) => Aborted(a)
        case Done(u) => AddNodes(u, recs[1..])
  }

  /** The IDs of a node sequence are pairwise distinct. */
  predicate DistinctIds(ns: seq<ST.Node>)
  {
    forall i, j :: 0 <= i < j < |ns| ==> ns[i].id != ns[j].id
  }

  function Ids(ns: seq<ST.Node>): set<int>
  {
    set i | 0 <= i < |ns| :: ns[i].id
  }

  /** No node of `ns` has an ID in `keys`. */
  predicate NoneIn(ns: seq<ST.Node>, keys: set<int>)
  {
    forall i :: 0 <= i < |ns| ==> ns[i].id !in keys
  }

  /** Adding the decoded nodes to an indexed tree: it panics exactly when an
      ID repeats (among the nodes or against the tree), and otherwise yields
      an indexed tree holding exactly the old nodes, unchanged, plus the
      decoded ones, each under its ID and pointing at the tree, and
      DecodeNodes's error. */
  lemma AddNodesSpec(t: ST.Tree, recs: seq<Read<ST.Node>>)
    requires ST.Indexed(t)
    ensures var run := DecodeNodes(recs, NeverFails);
      && (AddNodes(t, recs).Aborted? <==> !DistinctIds(run.handled) || !NoneIn(run.handled, t.nodes.Keys))
      && (AddNodes(t, recs).Done? ==>
            && ST.Indexed(AddNodes(t, recs).value.0)
            && AddNodes(t, recs).value.0.nodes.Keys == t.nodes.Keys + Ids(run.handled)
            && Stores(AddNodes(t, recs).value.0, t, run.handled, ST.OwnerOf(t))
            && AddNodes(t, recs).value.1 == run.err)
  {
    AddNodesAborts(t, recs);
    AddNodesResult(t, recs);
    AddNodesIndexed(t, recs);
    AddNodesValues(t, recs);
  }

  lemma {:induction false} AddNodesAborts(t: ST.Tree, recs: seq<Read<ST.Node>>)
    decreases |recs|
    ensures AddNodes(t, recs).Aborted? <==>
      !DistinctIds(DecodeNodes(recs, NeverFails).handled) || !NoneIn(DecodeNodes(recs, NeverFails).handled, t.nodes.Keys)
  {
    if recs != [] && recs[0].Got? {
      var n := recs[0].value;
      var rest := DecodeNodes(recs[1..], NeverFails).handled;
      assert DecodeNodes(recs, NeverFails).handled == [n] + rest;
      DistinctCons(n, rest);
      NoneInCons(n, rest, t.nodes.Keys);
      if n.id !in t.nodes {
        AddNodesAborts(ST.Add(t, n).value, recs[1..]);
        NoneInUnion(rest, t.nodes.Keys, {n.id});
      }
    }
  }

  lemma NoneInCons(n: ST.Node, ns: seq<ST.Node>, keys: set<int>)
    ensures NoneIn([n] + ns, keys) <==> n.id !in keys && NoneIn(ns, keys)
  {
    var s := [n] + ns;
    assert s[0] == n;
    assert forall i :: 0 <= i < |ns| ==> s[i + 1] == ns[i];
  }

  lemma NoneInUnion(ns: seq<ST.Node>, a: set<int>, b: set<int>)
    ensures NoneIn(ns, a + b) <==> NoneIn(ns, a) && NoneIn(ns, b)
  {
  }

  lemma {:induction false} AddNodesResult(t: ST.Tree, recs: seq<Read<ST.Node>>)
    decreases |recs|
    ensures AddNodes(t, recs).Done? ==>
      && AddNodes(t, recs).value.0.nodes.Keys == t.nodes.Keys + Ids(DecodeNodes(recs, NeverFails).handled)
      && AddNodes(t, recs).value.1 == DecodeNodes(recs, NeverFails).err
  {
    if recs == [] || recs[0].Failed? {
      assert DecodeNodes(recs, NeverFails).handled == [];
      assert Ids([]) == {};
    } else {
      var n := recs[0].value;
      var rest := DecodeNodes(recs[1..], NeverFails);
      assert DecodeNodes(recs, NeverFails) == Run([n] + rest.handled, rest.err);
      IdsCons(n, rest.handled);
      if n.id !in t.nodes {
        AddNodesResult(ST.Add(t, n).value, recs[1..]);
      }
    }
  }

  lemma {:induction false} AddNodesIndexed(t: ST.Tree, recs: seq<Read<ST.Node>>)
    requires ST.Indexed(t)
    decreases |recs|
    ensures AddNodes(t, recs).Done? ==> ST.Indexed(AddNodes(t, recs).value.0)
  {
    if recs != [] && recs[0].Got? && recs[0].value.id !in t.nodes {
      ST.AddKeepsIndexed(t, recs[0].value);
      AddNodesIndexed(ST.Add(t, recs[0].value).value, recs[1..]);
    }
  }

  /** `u` keeps every node of `t` as it was and stores each node of `ns`
      under its ID, with its tree pointer set to `o`. */
  ghost predicate Stores(u: ST.Tree, t: ST.Tree, ns: seq<ST.Node>, o: ST.Owner)
  {
    && (forall k :: k in t.nodes ==> k in u.nodes && u.nodes[k] == t.nodes[k])
    && (forall i :: 0 <= i < |ns| ==> ns[i].id in u.nodes && u.nodes[ns[i].id] == ns[i].(owner := Some(o)))
  }

  lemma {:induction false} AddNodesValues(t: ST.Tree, recs: seq<Read<ST.Node>>)
    decreases |recs|
    ensures AddNodes(t, recs).Done? ==>
      Stores(AddNodes(t, recs).value.0, t, DecodeNodes(recs, NeverFails).handled, ST.OwnerOf(t))
  {
    if recs != [] && recs[0].Got? && recs[0].value.id !in t.nodes {
      var n := recs[0].value;
      var u := ST.Add(t, n).value;
      var rest := DecodeNodes(recs[1..], NeverFails).handled;
      assert DecodeNodes(recs, NeverFails).handled == [n] + rest;
      AddNodesValues(u, recs[1..]);
      assert ST.OwnerOf(u) == ST.OwnerOf(t);
      assert forall i :: 0 < i < |[n] + rest| ==> ([n] + rest)[i] == rest[i - 1];
    } else if recs == [] || recs[0].Failed? {
      assert DecodeNodes(recs, NeverFails).handled == [];
    }
  }

  lemma IdsCons(n: ST.Node, ns: seq<ST.Node>)
    ensures Ids([n] + ns) == {n.id} + Ids(ns)
  {
    var s := [n] + ns;
    forall x | x in Ids(s) ensures x in {n.id} + Ids(ns) {
      var i :| 0 <= i < |s| && s[i].id == x;
      if i > 0 { assert s[i] == ns[i - 1]; }
    }
    forall x | x in Ids(ns) ensures x in Ids(s) {
      var i :| 0 <= i < |ns| && ns[i].id == x;
      assert s[i + 1] == ns[i];
    }
    assert s[0] == n;
  }

  lemma DistinctCons(n: ST.Node, ns: seq<ST.Node>)
    ensures DistinctIds([n] + ns) <==> DistinctIds(ns) && NoneIn(ns, {n.id})
  {
    var s := [n] + ns;
    assert s[0] == n;
    assert forall i :: 0 <= i < |ns| ==> s[i + 1] == ns[i];
    if DistinctIds(ns) && NoneIn(ns, {n.id}) {
      forall i, j | 0 <= i < j < |s| ensures s[i].id != s[j].id {
        assert s[j] == ns[j - 1];
        if i > 0 {
          assert s[i] == ns[i - 1];
        }
      }
    }
  }

  /** ReadTree on a version-1 header: it panics exactly when two decoded nodes
      share an ID; otherwise the tree is indexed, holds exactly the decoded
      nodes, each under its ID and pointing at the new tree, and the error is
      the one DecodeNodes reports. */
  lemma ReadTreeSpec(ident: nat, i: ST.Info, recs: seq<Read<ST.Node>>)
    requires i.version == ST.VERSION
    ensures var run := DecodeNodes(recs, NeverFails);
      && (ReadTree(ident, Got(i), recs).Aborted? <==> !DistinctIds(run.handled))
      && (ReadTree(ident, Got(i), recs).Done? ==>
            && ST.Indexed(ReadTree(ident, Got(i), recs).value.0)
            && ReadTree(ident, Got(i), recs).value.0.nodes.Keys == Ids(run.handled)
            && (forall j :: 0 <= j < |run.handled| ==>
                  ReadTree(ident, Got(i), recs).value.0.nodes[run.handled[j].id] ==
                  run.handled[j].(owner := Some(ST.Owner(ident, Some(i.nonce)))))
            && ReadTree(ident, Got(i), recs).value.1 == run.err)
  {
    var t := ST.NewTree(ident).(info := Some(i));
    assert ST.Indexed(t);
    AddNodesSpec(t, recs);
  }
}
