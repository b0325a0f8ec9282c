/** The node decoder of the `core` package revision (core/codec.go): it reads
    nodes from a gob stream and remembers every decoded node by ID, so that a
    node's parent can be found when the node arrives. */
module CoreCodec {
  import opened Base
  import opened CoreNode

  /** The gob stream still to be read and the ID-to-node map. */
  datatype NodeDecoder = NodeDecoder(recs: seq<Read<CNode>>, nrm: map<nat, CNode>)

  /** NewDecoder: a decoder over `recs` that has decoded nothing yet. */
  function NewDecoder(recs: seq<Read<CNode>>): (d: NodeDecoder)
    ensures d.recs == recs && d.nrm == map[]
  {
    NodeDecoder(recs, map[])
  }

  /** What one Decode call leaves: the decoder, the node the gob decoder
      filled in (if it filled one) and the returned error. */
  datatype Decoded = Decoded(dec: NodeDecoder, node: Option<CNode>, err: Option<Error>)

  /** The next record of the stream; io.EOF past its end. */
  function Head(recs: seq<Read<CNode>>): Read<CNode>
  {
    if recs == [] then Failed(Eof) else recs[0]
  }

  function Tail(recs: seq<Read<CNode>>): seq<Read<CNode>>
  {
    if recs == [] then [] else recs[1..]
  }

  /** NodeDecoder.Decode as written: a gob error (io.EOF included) is returned
      unchanged and nothing is stored. A decoded node is stored under its ID
      first, replacing any earlier node with that ID; IDs 0 and 1 are roots
      and need no parent; any other node needs its parent ID to be in the
      map, which by then already holds the node itself. */
  function Decode(d: NodeDecoder): (r: Decoded)
    ensures r.dec.recs == Tail(d.recs)
    ensures Head(d.recs).Failed? ==> r == Decoded(r.dec, None, Some(Head(d.recs).err)) && r.dec.nrm == d.nrm
    ensures Head(d.recs).Got? ==>
      var n := Head(d.recs).value;
      && r.node == Some(n)
      && r.dec.nrm == d.nrm[n.id := n]
      && (r.err.Some? <==> n.id > 1 && n.parentId != n.id && n.parentId !in d.nrm)
      && (r.err.Some? ==> r.err == Some(ParentNotDecoded(n.id)))
  {
    match Head(d.recs)
    case Failed(e) => Decoded(d.(recs := Tail(d.recs)), None, Some(e))
    case Got(n) =>
      var nrm := d.nrm[n.id := n];
      var d' := NodeDecoder(Tail(d.recs), nrm);
      if n.id == 1 || n.id == 0 then Decoded(d', Some(n), None)
      else if n.parentId !in nrm then Decoded(d', Some(n), Some(ParentNotDecoded(n.id)))
      else Decoded(d', Some(n), None)
  }

  /** Decode with the parent looked up among the nodes decoded BEFORE this
      one, as the check is evidently meant: the node is still stored, but
      it can no longer stand in for its own parent. */
  function DecodeChecked(d: NodeDecoder): (r: Decoded)
    ensures r.dec.recs == Tail(d.recs)
    ensures Head(d.recs).Failed? ==> r == Decoded(r.dec, None, Some(Head(d.recs).err)) && r.dec.nrm == d.nrm
    ensures Head(d.recs).Got? ==>
      var n := Head(d.recs).value;
      && r.node == Some(n)
      && r.dec.nrm == d.nrm[n.id := n]
      && (r.err.Some? <==> n.id > 1 && n.parentId !in d.nrm)
      && (r.err.Some? ==> r.err == Some(ParentNotDecoded(n.id)))
  {
    match Head(d.recs)
    case Failed(e) => Decoded(d.(recs := Tail(d.recs)), None, Some(e))
    case Got(n) =>
      var d' := NodeDecoder(Tail(d.recs), d.nrm[n.id := n]);
      if n.id == 1 || n.id == 0 then Decoded(d', Some(n), None)
      else if n.parentId !in d.nrm then Decoded(d', Some(n), Some(ParentNotDecoded(n.id)))
      else Decoded(d', Some(n), None)
  }

  /** A caller's loop: Decode until it returns an error (at the latest the
      io.EOF at the end of the stream), collecting the accepted nodes. */
  datatype Run = Run(nodes: seq<CNode>, err: Error, dec: NodeDecoder)

  function DecodeAll(d: NodeDecoder, checked: bool): Run
    decreases |d.recs|
  {
    var s := if checked then DecodeChecked(d) else Decode(d);
    if s.err.Some? then Run([], s.err.value, s.dec)
    else
      var rest := DecodeAll(s.dec, checked);
      Run([s.node.value] + rest.nodes, rest.err, rest.dec)
  }

  /** The accepted nodes are the records the run read, in stream order. */
  lemma {:induction false} DecodeAllReadsPrefix(d: NodeDecoder, checked: bool)
    ensures |DecodeAll(d, checked).nodes| <= |d.recs|
    ensures forall i :: 0 <= i < |DecodeAll(d, checked).nodes| ==> d.recs[i] == Got(DecodeAll(d, checked).nodes[i])
    decreases |d.recs|
  {
    var s := if checked then DecodeChecked(d) else Decode(d);
    if s.err.None? {
      var ns := DecodeAll(d, checked).nodes;
      var rest := DecodeAll(s.dec, checked).nodes;
      DecodeAllReadsPrefix(s.dec, checked);
      assert ns == [s.node.value] + rest;
      assert s.dec.recs == d.recs[1..];
      forall i | 0 <= i < |ns| ensures d.recs[i] == Got(ns[i]) {
        if i > 0 {
          assert ns[i] == rest[i - 1];
        }
      }
    }
  }

  /** Every node of `ns` with an ID above 1 has its parent among `known` or
      among the nodes strictly before it. */
  predicate ParentsBefore(ns: seq<CNode>, known: set<nat>)
  {
    forall k :: 0 <= k < |ns| && ns[k].id > 1 ==>
      ns[k].parentId in known || exists j :: 0 <= j < k && ns[j].id == ns[k].parentId
  }

  /** The weaker guarantee: the parent is known, or among the nodes before it,
      or the node itself. */
  predicate ParentsNotAfter(ns: seq<CNode>, known: set<nat>)
  {
    forall k :: 0 <= k < |ns| && ns[k].id > 1 ==>
      ns[k].parentId in known || exists j :: 0 <= j <= k && ns[j].id == ns[k].parentId
  }

  /** With the corrected check, every accepted non-root node's parent was
      decoded strictly earlier (or was known before the run). */
  lemma {:induction false} CheckedParentsBefore(d: NodeDecoder)
    ensures ParentsBefore(DecodeAll(d, true).nodes, d.nrm.Keys)
    decreases |d.recs|
  {
    var s := DecodeChecked(d);
    if s.err.None? {
      var n := s.node.value;
      var ns := DecodeAll(d, true).nodes;
      var rest := DecodeAll(s.dec, true).nodes;
      CheckedParentsBefore(s.dec);
      assert ns == [n] + rest;
      assert s.dec.nrm.Keys == d.nrm.Keys + {n.id};
      forall k | 0 <= k < |ns| && ns[k].id > 1
        ensures ns[k].parentId in d.nrm.Keys || exists j :: 0 <= j < k && ns[j].id == ns[k].parentId
      {
        if k > 0 {
          assert ns[k] == rest[k - 1];
          if ns[k].parentId !in d.nrm.Keys {
            if ns[k].parentId == n.id {
              assert ns[0].id == ns[k].parentId;
            } else {
              var j :| 0 <= j < k - 1 && rest[j].id == rest[k - 1].parentId;
              assert ns[j + 1] == rest[j];
            }
          }
        }
      }
    }
  }

  /** As written, the accepted nodes only satisfy the weaker guarantee. */
  lemma {:induction false} AsWrittenParentsNotAfter(d: NodeDecoder)
    ensures ParentsNotAfter(DecodeAll(d, false).nodes, d.nrm.Keys)
    decreases |d.recs|
  {
    var s := Decode(d);
    if s.err.None? {
      var n := s.node.value;
      var ns := DecodeAll(d, false).nodes;
      var rest := DecodeAll(s.dec, false).nodes;
      AsWrittenParentsNotAfter(s.dec);
      assert ns == [n] + rest;
      assert s.dec.nrm.Keys == d.nrm.Keys + {n.id};
      forall k | 0 <= k < |ns| && ns[k].id > 1
        ensures ns[k].parentId in d.nrm.Keys || exists j :: 0 <= j <= k && ns[j].id == ns[k].parentId
      {
        if k == 0 {
          if n.parentId !in d.nrm.Keys {
            assert ns[0].id == ns[0].parentId;
          }
        } else {
          assert ns[k] == rest[k - 1];
          if ns[k].parentId !in d.nrm.Keys {
            if ns[k].parentId == n.id {
              assert ns[0].id == ns[k].parentId;
            } else {
              var j :| 0 <= j <= k - 1 && rest[j].id == rest[k - 1].parentId;
              assert ns[j + 1] == rest[j];
            }
          }
        }
      }
    }
  }

  /** A node that names itself as its parent. */
  function SelfParented(): (n: CNode)
    ensures n.id == 2 && n.parentId == 2
  {
    CNode(2, Regular, "a", 1, ZeroHash(), 2, None, "", 0, "")
  }

  /** As written, a fresh decoder accepts a first node with ID 2 whose parent
      is itself, although no node came before it; the corrected check
      rejects it. */
  lemma SelfParentAccepted()
    ensures DecodeAll(NewDecoder([Got(SelfParented())]), false).nodes == [SelfParented()]
    ensures !ParentsBefore(DecodeAll(NewDecoder([Got(SelfParented())]), false).nodes, {})
    ensures DecodeAll(NewDecoder([Got(SelfParented())]), true) ==
      Run([], ParentNotDecoded(2), NodeDecoder([], map[2 := SelfParented()]))
  {
    var x := SelfParented();
    var d := NewDecoder([Got(x)]);
    var s := Decode(d);
    assert s.err.None? && s.node == Some(x);
    assert DecodeAll(s.dec, false).nodes == [];
    var ns := DecodeAll(d, false).nodes;
    assert ns[0] == x && x.id > 1 && x.parentId !in {};
  }
}
