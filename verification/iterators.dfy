/** The node iterator of the root package (iterator.go): a DecoderIterator
    reading nodes one by one from a decode stream, and the ReadAll and Each
    loops over it. */
module Iterators {
  import opened Base
  import ST = SnapTree
  import TR = TreeReader

  /** The decoder's remaining stream, the recorded error, the current node
      (nil before the first successful Next) and the count of decoded nodes. */
  datatype DecoderIterator = DecoderIterator(
    recs: seq<Read<ST.Node>>,
    err: Option<Error>,
    n: Option<ST.Node>,
    pos: nat)

  function NewIterator(recs: seq<Read<ST.Node>>): DecoderIterator
  {
    DecoderIterator(recs, None, None, 0)
  }

  /** DecoderIterator.Next: decode one record. On io.EOF (or a drained stream)
      report false and change nothing else; on another error record it with
      the current position and report false; on success make the node current,
      count it and report true. */
  function Next(it: DecoderIterator): (r: (DecoderIterator, bool))
    ensures r.0.recs == (if it.recs == [] then [] else it.recs[1..])
    ensures r.1 <==> it.recs != [] && it.recs[0].Got?
    ensures r.1 ==> r.0 == it.(recs := it.recs[1..], n := Some(it.recs[0].value), pos := it.pos + 1)
    ensures !r.1 && (it.recs == [] || it.recs[0] == Failed(Eof)) ==> r.0.err == it.err
    ensures !r.1 && it.recs != [] && it.recs[0].Failed? && it.recs[0].err != Eof ==>
      r.0.err == Some(AtPos(it.pos, it.recs[0].err))
    ensures !r.1 ==> r.0.n == it.n && r.0.pos == it.pos
  {
    if it.recs == [] then (it, false)
    else match it.recs[0]
      case Failed(e) =>
        if e == Eof then (it.(recs := it.recs[1..]), false)
        else (it.(recs := it.recs[1..], err := Some(AtPos(it.pos, e))), false)
      case Got(n) => (it.(recs := it.recs[1..], n := Some(n), pos := it.pos + 1), true)
  }

  /** DecoderIterator.Node: the current node; a panic before any successful Next. */
  function Node(it: DecoderIterator): (r: Outcome<ST.Node>)
    ensures r.Aborted? <==> it.n.None?
    ensures r.Aborted? ==> r.abort == Panic(NextNotCalled)
    ensures r.Done? ==> Some(r.value) == it.n
  {
    if it.n.None? then Aborted(Panic(NextNotCalled)) else Done(it.n.value)
  }

  /** DecoderIterator.Error. */
  function Error(it: DecoderIterator): Option<Error>
  {
    it.err
  }

  /** Node before any Next panics; after a successful Next it is the node
      just decoded. */
  lemma NodeAfterNext(recs: seq<Read<ST.Node>>)
    ensures Node(NewIterator(recs)) == Aborted(Panic(NextNotCalled))
    ensures Next(NewIterator(recs)).1 ==> Node(Next(NewIterator(recs)).0) == Done(recs[0].value)
  {
  }

  /** `pos` counts successful decodes: after `k` calls of Next that all
      succeeded, pos has grown by `k`. */
  function NextTimes(it: DecoderIterator, k: nat): DecoderIterator
    decreases k
  {
    if k == 0 then it else NextTimes(Next(it).0, k - 1)
  }

  lemma {:induction false} PosCountsDecodes(it: DecoderIterator, k: nat)
    requires k <= |it.recs|
    requires forall i :: 0 <= i < k ==> it.recs[i].Got?
    ensures NextTimes(it, k).pos == it.pos + k
    ensures NextTimes(it, k).recs == it.recs[k..]
    ensures NextTimes(it, k).err == it.err
    decreases k
  {
    if k > 0 {
      var it' := Next(it).0;
      assert it'.recs == it.recs[1..];
      assert forall i :: 0 <= i < k - 1 ==> it'.recs[i] == it.recs[i + 1];
      PosCountsDecodes(it', k - 1);
      assert it.recs[1..][k - 1..] == it.recs[k..];
    }
  }

  /** The records up to the first one that is not a node, read as nodes. */
  lemma {:induction false} HandledPrefix(recs: seq<Read<ST.Node>>, r: seq<ST.Node>)
    requires |r| <= |recs|
    requires forall i :: 0 <= i < |r| ==> recs[i] == Got(r[i])
    requires |r| == |recs| || recs[|r|].Failed?
    ensures TR.DecodeNodes(recs, TR.NeverFails).handled == r
    ensures TR.DecodeNodes(recs, TR.NeverFails).err ==
      (if |r| < |recs| && recs[|r|].err != Eof then Some(recs[|r|].err) else None)
  {
    if r != [] {
      assert forall i :: 0 <= i < |r| - 1 ==> recs[1..][i] == Got(r[1..][i]);
      HandledPrefix(recs[1..], r[1..]);
      assert recs[0] == Got(r[0]);
      assert [r[0]] + r[1..] == r;
    }
  }

  /** ReadAll: call Next until it reports false, collecting the nodes. It
      returns what DecodeNodes would hand to a callback that never fails; the
      iterator has counted them and recorded DecodeNodes's error, if any. */
  method ReadAll(it0: DecoderIterator) returns (r: seq<ST.Node>, it: DecoderIterator)
    ensures r == TR.DecodeNodes(it0.recs, TR.NeverFails).handled
    ensures it.pos == it0.pos + |r|
    ensures TR.DecodeNodes(it0.recs, TR.NeverFails).err.Some? ==>
      it.err == Some(AtPos(it.pos, TR.DecodeNodes(it0.recs, TR.NeverFails).err.value))
    ensures TR.DecodeNodes(it0.recs, TR.NeverFails).err.None? ==> it.err == it0.err
  {
    r := [];
    it := it0;
    while true
      invariant |r| <= |it0.recs| && it.recs == it0.recs[|r|..]
      invariant forall i :: 0 <= i < |r| ==> it0.recs[i] == Got(r[i])
      invariant it.pos == it0.pos + |r| && it.err == it0.err
      invariant r != [] ==> it.n == Some(r[|r| - 1])
      decreases |it.recs|
    {
      var step := Next(it);
      if !step.1 {
        HandledPrefix(it0.recs, r);
        it := step.0;
        return;
      }
      it := step.0;
      var node := Node(it);
      r := r + [node.value];
    }
  }

  /** Each: call `nf` on every node Next yields, stopping at the first error
      `nf` returns and returning it. When Next reports false, Each returns nil,
      even if the iterator recorded a decode error. The nodes `nf` was called
      on are returned as `visited`; they are exactly the ones DecodeNodes hands
      to the same callback. */
  method Each(it0: DecoderIterator, nf: ST.Node -> Option<Error>) returns (e: Option<Error>, visited: seq<ST.Node>, it: DecoderIterator)
    ensures visited == TR.DecodeNodes(it0.recs, nf).handled
    ensures e.Some? ==> visited != [] && nf(visited[|visited| - 1]) == e
    ensures e.None? ==> forall i :: 0 <= i < |visited| ==> nf(visited[i]).None?
    ensures e.None? && TR.DecodeNodes(it0.recs, nf).err.Some? ==>
      it.err == Some(AtPos(it.pos, TR.DecodeNodes(it0.recs, nf).err.value))
  {
    visited := [];
    it := it0;
    while true
      invariant AcceptedRun(it0.recs, nf, visited) && it.recs == it0.recs[|visited|..]
      invariant it.pos == it0.pos + |visited|
      invariant visited != [] ==> it.n == Some(visited[|visited| - 1])
      decreases |it.recs|
    {
      var step := Next(it);
      if !step.1 {
        EachStops(it0.recs, nf, visited);
        it := step.0;
        assert forall i :: 0 <= i < |visited| ==> nf(visited[i]).None?;
        return None, visited, it;
      }
      assert it0.recs[|visited|] == it.recs[0];
      it := step.0;
      var node := Node(it);
      var err := nf(node.value);
      if err.Some? {
        EachFails(it0.recs, nf, visited + [node.value]);
        return err, visited + [node.value], it;
      }
      RunGrows(it0.recs, nf, visited, node.value);
      assert it0.recs[|visited| + 1..] == it0.recs[|visited|..][1..];
      visited := visited + [node.value];
    }
  }

  /** An accepted run extends by the next record when it is a node `nf`
      accepts. */
  lemma RunGrows(recs: seq<Read<ST.Node>>, nf: ST.Node -> Option<Error>, vs: seq<ST.Node>, v: ST.Node)
    requires AcceptedRun(recs, nf, vs) && |vs| < |recs|
    requires recs[|vs|] == Got(v) && nf(v).None?
    ensures AcceptedRun(recs, nf, vs + [v])
  {
    forall i | 0 <= i < |vs| + 1 ensures recs[i] == Got((vs + [v])[i]) && nf((vs + [v])[i]).None? {
      if i < |vs| {
        assert (vs + [v])[i] == vs[i];
      }
    }
  }

  /** The records begin with the nodes `vs`, all of which `nf` accepts. */
  predicate AcceptedRun(recs: seq<Read<ST.Node>>, nf: ST.Node -> Option<Error>, vs: seq<ST.Node>)
  {
    |vs| <= |recs| && forall i :: 0 <= i < |vs| ==> recs[i] == Got(vs[i]) && nf(vs[i]).None?
  }

  /** A run of nodes all accepted by `nf`, ended by a non-node record. */
  lemma {:induction false} EachStops(recs: seq<Read<ST.Node>>, nf: ST.Node -> Option<Error>, vs: seq<ST.Node>)
    requires |vs| <= |recs|
    requires forall i :: 0 <= i < |vs| ==> recs[i] == Got(vs[i]) && nf(vs[i]).None?
    requires |vs| == |recs| || recs[|vs|].Failed?
    ensures TR.DecodeNodes(recs, nf).handled == vs
    ensures TR.DecodeNodes(recs, nf).err ==
      (if |vs| < |recs| && recs[|vs|].err != Eof then Some(recs[|vs|].err) else None)
  {
    if vs != [] {
      assert forall i :: 0 <= i < |vs| - 1 ==> recs[1..][i] == Got(vs[1..][i]) && nf(vs[1..][i]).None?;
      EachStops(recs[1..], nf, vs[1..]);
      assert recs[0] == Got(vs[0]);
      assert [vs[0]] + vs[1..] == vs;
    }
  }

  /** A run of nodes accepted by `nf` but the last, which it rejects. */
  lemma {:induction false} EachFails(recs: seq<Read<ST.Node>>, nf: ST.Node -> Option<Error>, vs: seq<ST.Node>)
    requires 0 < |vs| <= |recs|
    requires forall i :: 0 <= i < |vs| ==> recs[i] == Got(vs[i])
    requires forall i :: 0 <= i < |vs| - 1 ==> nf(vs[i]).None?
    requires nf(vs[|vs| - 1]).Some?
    ensures TR.DecodeNodes(recs, nf).handled == vs
  {
    if |vs| > 1 {
      var rs, ws := recs[1..], vs[1..];
      forall i | 0 <= i < |ws| ensures rs[i] == Got(ws[i]) {
        assert rs[i] == recs[i + 1] && ws[i] == vs[i + 1];
      }
      forall i | 0 <= i < |ws| - 1 ensures nf(ws[i]).None? {
        assert ws[i] == vs[i + 1];
      }
      EachFails(rs, nf, ws);
      assert recs[0] == Got(vs[0]) && nf(vs[0]).None?;
      assert [vs[0]] + ws == vs;
    } else {
      assert recs[0] == Got(vs[0]);
    }
  }
}
