/** The trim scenarios of internal/snapshot_test.go, with the trees the
    snapshot of each fixture directory produces: d1 holding d2/f1.txt and
    d2/f1dup.txt (both "abc"), and d2 holding d3/f2.txt. */
module TrimScenarios {
  import opened Base
  import ST = SnapTree
  import opened HashGroups

  /** The digests of the contents "abc" and "def"; any two distinct values do. */
  function HashAbc(): Hash { ZeroHash()[0 := 1] }
  function HashDef(): Hash { ZeroHash()[0 := 2] }

  function Nonce1(): Nonce { ZeroNonce()[0 := 1] }
  function Nonce2(): Nonce { ZeroNonce()[0 := 2] }

  function OwnerIn(ident: nat, nonce: Nonce): Option<ST.Owner>
  {
    Some(ST.Owner(ident, Some(nonce)))
  }

  function F1(): ST.Node { ST.Node(3, 2, "f1.txt", Regular, 3, HashAbc(), OwnerIn(1, Nonce1())) }
  function F1Dup(): ST.Node { ST.Node(4, 2, "f1dup.txt", Regular, 3, HashAbc(), OwnerIn(1, Nonce1())) }

  /** The snapshot of d1. */
  function T1(): ST.Tree
  {
    ST.Tree(1, Some(ST.Info("d1", 1, Nonce1(), "")),
      map[1 := ST.Node(1, 0, "d1", Dir, 0, ZeroHash(), OwnerIn(1, Nonce1())),
          2 := ST.Node(2, 1, "d2", Dir, 0, ZeroHash(), OwnerIn(1, Nonce1())),
          3 := F1(),
          4 := F1Dup()],
      map[0 := [1], 1 := [2], 2 := [3, 4]])
  }

  /** The snapshot of d2, whose f2.txt has digest `h`. */
  function T2(h: Hash): ST.Tree
  {
    ST.Tree(2, Some(ST.Info("d2", 1, Nonce2(), "")),
      map[1 := ST.Node(1, 0, "d2", Dir, 0, ZeroHash(), OwnerIn(2, Nonce2())),
          2 := ST.Node(2, 1, "d3", Dir, 0, ZeroHash(), OwnerIn(2, Nonce2())),
          3 := ST.Node(3, 2, "f2.txt", Regular, 3, h, OwnerIn(2, Nonce2()))],
      map[0 := [1], 1 := [2], 2 := [3]])
  }

  /** The snapshot of d1, as far as trimming looks at it. */
  predicate D1(t: ST.Tree)
  {
    && t.ident == 1 && t.info.Some? && t.info.value.nonce == Nonce1()
    && t.nodes.Keys == {1, 2, 3, 4}
    && !IsFile(t.nodes[1]) && !IsFile(t.nodes[2])
    && t.nodes[3] == F1() && t.nodes[4] == F1Dup()
    && forall k :: k in t.nodes ==> t.nodes[k].owner == OwnerIn(1, Nonce1())
  }

  /** The snapshot of d2, whose f2.txt has digest `h`. */
  predicate D2(t: ST.Tree, h: Hash)
  {
    && t.ident == 2 && t.info.Some? && t.info.value.nonce == Nonce2()
    && t.nodes.Keys == {1, 2, 3}
    && !IsFile(t.nodes[1]) && !IsFile(t.nodes[2])
    && IsFile(t.nodes[3]) && t.nodes[3].hash == h && t.nodes[3].size == 3 && t.nodes[3].name == "f2.txt"
    && forall k :: k in t.nodes ==> t.nodes[k].owner == OwnerIn(2, Nonce2())
  }

  lemma FixturesHaveShape(h: Hash)
    ensures D1(T1()) && D2(T2(h), h)
  {
  }

  /** Trimming d1 against d2 succeeds whatever f2.txt holds. */
  lemma TrimSucceeds(t1: ST.Tree, torder: seq<int>, t2: ST.Tree, h: Hash, worder: seq<int>)
    requires D1(t1) && D2(t2, h)
    requires Enumerates(torder, t1.nodes.Keys) && Enumerates(worder, t2.nodes.Keys)
    ensures Ordered([t2], [worder])
    ensures Trim(t1, torder, [t2], [worder]).Done?
  {
    assert FilesSized(t1, 3);
    SameSizeNeverClashes(t1, t2, 3);
    assert Nonce1()[0] != Nonce2()[0];
    assert !Rejected(t1, t2);
    assert Ordered([t2], [worder]);
    TrimAborts(t1, torder, [t2], [worder]);
  }

  lemma TrimKeysOfD1(t1: ST.Tree, torder: seq<int>, t2: ST.Tree, h: Hash, worder: seq<int>, hg: HashGroup)
    requires D1(t1) && D2(t2, h)
    requires Enumerates(torder, t1.nodes.Keys) && Enumerates(worder, t2.nodes.Keys)
    requires Trim(t1, torder, [t2], [worder]) == Done(hg)
    ensures hg.Keys == {HashAbc()}
  {
    assert Ordered([t2], [worder]);
    TrimKeys(t1, torder, [t2], [worder]);
    D1FileHashes(t1);
  }

  /** Both files of d1 hold "abc". */
  lemma D1FileHashes(t1: ST.Tree)
    requires D1(t1)
    ensures (set k | k in t1.nodes && IsFile(t1.nodes[k]) :: t1.nodes[k].hash) == {HashAbc()}
  {
    assert IsFile(t1.nodes[3]);
  }

  /** The one group: d1's "abc" files followed by d2's files with that hash. */
  lemma TrimGroup(t1: ST.Tree, torder: seq<int>, t2: ST.Tree, h: Hash, worder: seq<int>, hg: HashGroup)
    requires D1(t1) && D2(t2, h)
    requires Enumerates(torder, t1.nodes.Keys) && Enumerates(worder, t2.nodes.Keys)
    requires Trim(t1, torder, [t2], [worder]) == Done(hg)
    ensures hg.Keys == {HashAbc()}
    ensures hg[HashAbc()] == GroupOf(Values(t1.nodes, torder), HashAbc()) + GroupOf(Values(t2.nodes, worder), HashAbc())
  {
    assert Ordered([t2], [worder]);
    TrimKeysOfD1(t1, torder, t2, h, worder, hg);
    assert hg[HashAbc()] == GroupOf(Values(t1.nodes, torder), HashAbc()) + RefGroup([t2], [worder], HashAbc()) by {
      TrimGroups(t1, torder, [t2], [worder]);
    }
    assert RefGroup([t2], [worder], HashAbc()) == GroupOf(Values(t2.nodes, worder), HashAbc()) + RefGroup([], [], HashAbc());
  }

  /** Selecting from a single group made of `t`'s members followed by
      foreign ones yields `t`'s members. */
  lemma SelectSingle(hg: HashGroup, t: ST.Tree, sorder: seq<Hash>, h: Hash, own: seq<ST.Node>, other: seq<ST.Node>)
    requires hg.Keys == {h} && hg[h] == own + other
    requires Enumerates(sorder, hg.Keys)
    requires forall x :: x in own ==> ST.OwnedBy(x, t)
    requires forall x :: x in other ==> !ST.OwnedBy(x, t)
    ensures Select(hg, t, sorder) == own
  {
    assert sorder == [h] by {
      OrderSize(sorder, hg.Keys);
    }
    assert Select(hg, t, [h]) == Filter(ST.Owns(t), own + other) + Select(hg, t, []);
    assert Filter(ST.Owns(t), own + other) == own by {
      FilterConcat(ST.Owns(t), own, other);
      assert Filter(ST.Owns(t), own) == own by {
        FilterAll(ST.Owns(t), own);
      }
      assert Filter(ST.Owns(t), other) == [] by {
        FilterNone(ST.Owns(t), other);
      }
    }
  }

  /** The members of a tree's groups are nodes of that tree. */
  lemma GroupWithin(u: ST.Tree, order: seq<int>, h: Hash)
    requires Enumerates(order, u.nodes.Keys)
    ensures forall x :: x in GroupOf(Values(u.nodes, order), h) ==> x in u.nodes.Values
  {
    ValuesCover(u.nodes, order);
  }

  /** The files of d1 carrying "abc": f1.txt and f1dup.txt, in map order. */
  lemma OwnGroup(t1: ST.Tree, torder: seq<int>)
    requires D1(t1)
    requires Enumerates(torder, t1.nodes.Keys)
    ensures |GroupOf(Values(t1.nodes, torder), HashAbc())| == 2
    ensures F1() in GroupOf(Values(t1.nodes, torder), HashAbc())
    ensures F1Dup() in GroupOf(Values(t1.nodes, torder), HashAbc())
    ensures forall x :: x in GroupOf(Values(t1.nodes, torder), HashAbc()) ==> x == F1() || x == F1Dup()
  {
    var q := KeyTest(FileWith(HashAbc()), t1.nodes);
    var o := Filter(q, torder);
    assert Enumerates(o, {3, 4}) by {
      FilterEnumerates(q, torder, t1.nodes.Keys);
      D1FileKeys(t1);
    }
    assert GroupOf(Values(t1.nodes, torder), HashAbc()) == Values(t1.nodes, o) by {
      FilterValues(FileWith(HashAbc()), t1.nodes, torder);
    }
    PairValues(t1.nodes, o, 3, 4);
  }

  /** The keys of d1's "abc" files. */
  lemma D1FileKeys(t1: ST.Tree)
    requires D1(t1)
    ensures (set k | k in t1.nodes.Keys && KeyTest(FileWith(HashAbc()), t1.nodes)(k)) == {3, 4}
  {
  }

  /** When f2.txt holds "def", d2 has no "abc" file. */
  lemma D2LacksAbc(t2: ST.Tree, worder: seq<int>)
    requires D2(t2, HashDef())
    requires Enumerates(worder, t2.nodes.Keys)
    ensures GroupOf(Values(t2.nodes, worder), HashAbc()) == []
  {
    assert HashAbc()[0] != HashDef()[0];
    GroupWithin(t2, worder, HashAbc());
    GroupOfNonEmpty(Values(t2.nodes, worder), HashAbc());
  }

  /** The values of a map under an enumeration of two of its keys. */
  lemma PairValues<V>(m: map<int, V>, o: seq<int>, a: int, b: int)
    requires a in m && b in m && a != b
    requires Enumerates(o, {a, b})
    ensures |Values(m, o)| == 2
    ensures m[a] in Values(m, o) && m[b] in Values(m, o)
    ensures forall x :: x in Values(m, o) ==> x == m[a] || x == m[b]
  {
    OrderSize(o, {a, b});
    var vs := Values(m, o);
    var ia :| 0 <= ia < |o| && o[ia] == a;
    var ib :| 0 <= ib < |o| && o[ib] == b;
    assert vs[ia] == m[a] && vs[ib] == m[b];
    forall x | x in vs ensures x == m[a] || x == m[b] {
      var i :| 0 <= i < |vs| && vs[i] == x;
      assert o[i] in {a, b};
    }
  }

  /** TestBasicTrim: trimming d1 against d2 (where f2.txt equals f1.txt) and
      selecting d1's members yields exactly f1.txt and f1dup.txt. */
  lemma BasicTrim(t1: ST.Tree, torder: seq<int>, t2: ST.Tree, worder: seq<int>, hg: HashGroup, sorder: seq<Hash>)
    requires D1(t1) && D2(t2, HashAbc())
    requires Enumerates(torder, t1.nodes.Keys) && Enumerates(worder, t2.nodes.Keys)
    requires Trim(t1, torder, [t2], [worder]) == Done(hg)
    requires Enumerates(sorder, hg.Keys)
    ensures |Select(hg, t1, sorder)| == 2
    ensures F1() in Select(hg, t1, sorder) && F1Dup() in Select(hg, t1, sorder)
    ensures forall x :: x in Select(hg, t1, sorder) ==> x.name != "f2.txt"
  {
    TrimGroup(t1, torder, t2, HashAbc(), worder, hg);
    BasicSelect(t1, torder, t2, worder, hg, sorder);
    OwnGroup(t1, torder);
  }

  /** What is selected from the one group is d1's own part of it. */
  lemma BasicSelect(t1: ST.Tree, torder: seq<int>, t2: ST.Tree, worder: seq<int>, hg: HashGroup, sorder: seq<Hash>)
    requires D1(t1) && t2.ident == 2
    requires Enumerates(torder, t1.nodes.Keys) && Enumerates(worder, t2.nodes.Keys)
    requires hg.Keys == {HashAbc()}
    requires hg[HashAbc()] == GroupOf(Values(t1.nodes, torder), HashAbc()) + GroupOf(Values(t2.nodes, worder), HashAbc())
    requires forall k :: k in t2.nodes ==> t2.nodes[k].owner == OwnerIn(2, Nonce2())
    requires Enumerates(sorder, hg.Keys)
    ensures Select(hg, t1, sorder) == GroupOf(Values(t1.nodes, torder), HashAbc())
  {
    var own := GroupOf(Values(t1.nodes, torder), HashAbc());
    var other := GroupOf(Values(t2.nodes, worder), HashAbc());
    assert forall x :: x in own ==> ST.OwnedBy(x, t1) by {
      OwnGroup(t1, torder);
    }
    assert forall x :: x in other ==> !ST.OwnedBy(x, t1) by {
      GroupWithin(t2, worder, HashAbc());
    }
    SelectSingle(hg, t1, sorder, HashAbc(), own, other);
  }

  /** TestTrimWithDuplicate: when d2's file differs, f1.txt and f1dup.txt form
      a group confined to d1 and pruning deletes it, so nothing is selected. */
  lemma TrimWithDuplicate(t1: ST.Tree, torder: seq<int>, t2: ST.Tree, worder: seq<int>)
    requires D1(t1) && D2(t2, HashDef())
    requires Enumerates(torder, t1.nodes.Keys) && Enumerates(worder, t2.nodes.Keys)
    ensures Trim(t1, torder, [t2], [worder]).Done?
    ensures PruneSingleTreeGroups(Trim(t1, torder, [t2], [worder]).value) == Done(map[])
  {
    TrimSucceeds(t1, torder, t2, HashDef(), worder);
    var hg := Trim(t1, torder, [t2], [worder]).value;
    DuplicateGroup(t1, torder, t2, worder, hg);
    DuplicatePrunes(t1, torder, hg);
  }

  /** d1's own group of "abc", alone in the map, is pruned. */
  lemma DuplicatePrunes(t1: ST.Tree, torder: seq<int>, hg: HashGroup)
    requires D1(t1)
    requires Enumerates(torder, t1.nodes.Keys)
    requires hg.Keys == {HashAbc()} && hg[HashAbc()] == GroupOf(Values(t1.nodes, torder), HashAbc()) + []
    ensures PruneSingleTreeGroups(hg) == Done(map[])
  {
    OwnGroup(t1, torder);
    PruneOneTree(hg, HashAbc(), GroupOf(Values(t1.nodes, torder), HashAbc()), OwnerIn(1, Nonce1()));
  }

  /** With "def" in f2.txt, the trim leaves one group: d1's files of "abc". */
  lemma DuplicateGroup(t1: ST.Tree, torder: seq<int>, t2: ST.Tree, worder: seq<int>, hg: HashGroup)
    requires D1(t1) && D2(t2, HashDef())
    requires Enumerates(torder, t1.nodes.Keys) && Enumerates(worder, t2.nodes.Keys)
    requires Trim(t1, torder, [t2], [worder]) == Done(hg)
    ensures hg.Keys == {HashAbc()} && hg[HashAbc()] == GroupOf(Values(t1.nodes, torder), HashAbc()) + []
  {
    TrimGroup(t1, torder, t2, HashDef(), worder, hg);
    D2LacksAbc(t2, worder);
  }

  /** A hash group whose one group has members of a single tree is pruned
      to nothing. */
  lemma PruneOneTree(hg: HashGroup, h: Hash, own: seq<ST.Node>, owner: Option<ST.Owner>)
    requires hg.Keys == {h} && hg[h] == own + []
    requires owner.Some? && owner.value.nonce.Some?
    requires forall x :: x in own ==> x.owner == owner
    ensures PruneSingleTreeGroups(hg) == Done(map[])
  {
    assert own + [] == own;
    SingleTreePrunesToEmpty(hg, owner.value.nonce.value);
  }

  /** TestSelfTrim: a fresh tree with a zero header trimmed with itself panics. */
  lemma SelfTrim()
    ensures Trim(ST.Tree(1, Some(ST.Info("", 0, ZeroNonce(), "")), map[], map[]), [],
                 [ST.Tree(1, Some(ST.Info("", 0, ZeroNonce(), "")), map[], map[])], [[]]).Aborted?
  {
    SelfTrimPanics(ST.Tree(1, Some(ST.Info("", 0, ZeroNonce(), "")), map[], map[]), []);
  }
}
