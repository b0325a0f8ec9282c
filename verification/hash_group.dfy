/** The trim engine of the root package (tree.go): a HashGroup maps a content
    hash to the file nodes carrying it. The current tree is folded in with Add
    (which creates groups), every reference tree with Intersect (which only
    extends existing groups); groups confined to one snapshot are pruned and
    Select picks a tree's members as deletion candidates. */
module HashGroups {
  import opened Base
  import ST = SnapTree

  type HashGroup = map<Hash, seq<ST.Node>>

  /** The group of `h`, empty when `h` is not a key. */
  function Get(hg: HashGroup, h: Hash): seq<ST.Node>
  {
    if h in hg then hg[h] else []
  }

  predicate IsFile(n: ST.Node)
  {
    !n.kind.IsDir()
  }

  function FileWith(h: Hash): ST.Node -> bool
  {
    x => IsFile(x) && x.hash == h
  }

  /** The file nodes of `ns` carrying hash `h`, in order. */
  function GroupOf(ns: seq<ST.Node>, h: Hash): seq<ST.Node>
  {
    Filter(FileWith(h), ns)
  }

  /** The hashes of the file nodes of `ns`. */
  function FileHashes(ns: seq<ST.Node>): set<Hash>
  {
    set i | 0 <= i < |ns| && IsFile(ns[i]) :: ns[i].hash
  }

  /** The keys of `hg` are exactly the hashes of the file nodes of `ns`. */
  predicate KeyedByFiles(hg: HashGroup, ns: seq<ST.Node>)
  {
    hg.Keys == FileHashes(ns)
  }

  /** Every group is non-empty and holds file nodes with the group's hash and
      the size of its first member. */
  ghost predicate Uniform(hg: HashGroup)
  {
    forall h :: h in hg ==>
      && |hg[h]| > 0
      && forall i :: 0 <= i < |hg[h]| ==>
           IsFile(hg[h][i]) && hg[h][i].hash == h && hg[h][i].size == hg[h][0].size
  }

  /** HashGroup.Add: directories are ignored; a file joins the group of its
      hash, creating it if needed; a size different from the group's first
      member panics. */
  function Add(hg: HashGroup, n: ST.Node): (r: Outcome<HashGroup>)
    ensures !IsFile(n) ==> r == Done(hg)
    ensures r.Aborted? <==> IsFile(n) && n.hash in hg && (|hg[n.hash]| == 0 || hg[n.hash][0].size != n.size)
    ensures r.Done? && IsFile(n) ==>
      && r.value.Keys == hg.Keys + {n.hash}
      && r.value[n.hash] == Get(hg, n.hash) + [n]
      && (forall h :: h in hg && h != n.hash ==> r.value[h] == hg[h])
  {
    if n.kind.IsDir() then Done(hg)
    else if n.hash in hg then
      if |hg[n.hash]| == 0 then Aborted(Panic(IndexOutOfRange))
      else if hg[n.hash][0].size != n.size then Aborted(Panic(Collision))
      else Done(hg[n.hash := hg[n.hash] + [n]])
    else Done(hg[n.hash := [n]])
  }

  /** HashGroup.Intersect: like Add, but a file whose hash has no group is
      ignored, so the set of keys never changes. */
  function Intersect(hg: HashGroup, n: ST.Node): (r: Outcome<HashGroup>)
    ensures !IsFile(n) || n.hash !in hg ==> r == Done(hg)
    ensures r.Aborted? <==> IsFile(n) && n.hash in hg && (|hg[n.hash]| == 0 || hg[n.hash][0].size != n.size)
    ensures r.Done? ==> r.value.Keys == hg.Keys
    ensures r.Done? ==> forall h :: h in hg ==> r.value[h] == hg[h] + (if IsFile(n) && n.hash == h then [n] else [])
  {
    if n.kind.IsDir() then Done(hg)
    else if n.hash in hg then
      if |hg[n.hash]| == 0 then Aborted(Panic(IndexOutOfRange))
      else if hg[n.hash][0].size != n.size then Aborted(Panic(Collision))
      else Done(hg[n.hash := hg[n.hash] + [n]])
    else Done(hg)
  }

  /** `Add` applied to each node of `ns` in turn. */
  function AddAll(hg: HashGroup, ns: seq<ST.Node>): Outcome<HashGroup>
  {
    if ns == [] then Done(hg)
    else match AddAll(hg, ns[..|ns| - 1])
      case Aborted(a) => Aborted(a)
      case Done(g) => Add(g, ns[|ns| - 1])
  }

  /** `Intersect` applied to each node of `ns` in turn. */
  function IntersectAll(hg: HashGroup, ns: seq<ST.Node>): Outcome<HashGroup>
  {
    if ns == [] then Done(hg)
    else match IntersectAll(hg, ns[..|ns| - 1])
      case Aborted(a) => Aborted(a)
      case Done(g) => Intersect(g, ns[|ns| - 1])
  }

  /** Two file nodes of `ns` share a hash but not a size. */
  predicate HasCollision(ns: seq<ST.Node>)
  {
    exists i, j :: 0 <= i < j < |ns| && IsFile(ns[i]) && IsFile(ns[j]) &&
      ns[i].hash == ns[j].hash && ns[i].size != ns[j].size
  }

  /** `x` is a file sharing its hash, but not its size, with a file of `ns`. */
  predicate CollidesWith(ns: seq<ST.Node>, x: ST.Node)
  {
    IsFile(x) && exists i :: 0 <= i < |ns| && IsFile(ns[i]) && ns[i].hash == x.hash && ns[i].size != x.size
  }

  lemma CollisionAppend(ns: seq<ST.Node>, x: ST.Node)
    ensures HasCollision(ns + [x]) <==> HasCollision(ns) || CollidesWith(ns, x)
  {
    var s := ns + [x];
    if HasCollision(s) {
      var i, j :| 0 <= i < j < |s| && IsFile(s[i]) && IsFile(s[j]) && s[i].hash == s[j].hash && s[i].size != s[j].size;
      if j < |ns| {
        assert ns[i] == s[i] && ns[j] == s[j];
      } else {
        assert s[i] == ns[i];
      }
    }
    if HasCollision(ns) {
      var i, j :| 0 <= i < j < |ns| && IsFile(ns[i]) && IsFile(ns[j]) && ns[i].hash == ns[j].hash && ns[i].size != ns[j].size;
      assert s[i] == ns[i] && s[j] == ns[j];
    }
    if CollidesWith(ns, x) {
      var i :| 0 <= i < |ns| && IsFile(ns[i]) && ns[i].hash == x.hash && ns[i].size != x.size;
      assert s[i] == ns[i] && s[|ns|] == x;
    }
  }

  lemma GroupOfAppend(ns: seq<ST.Node>, x: ST.Node, h: Hash)
    ensures GroupOf(ns + [x], h) == GroupOf(ns, h) + (if IsFile(x) && x.hash == h then [x] else [])
  {
    FilterAppend(FileWith(h), ns, x);
  }

  lemma FileHashesAppend(ns: seq<ST.Node>, x: ST.Node)
    ensures FileHashes(ns + [x]) == FileHashes(ns) + (if IsFile(x) then {x.hash} else {})
  {
    var s := ns + [x];
    forall h | h in FileHashes(s) ensures h in FileHashes(ns) + (if IsFile(x) then {x.hash} else {}) {
      var i :| 0 <= i < |s| && IsFile(s[i]) && s[i].hash == h;
      if i < |ns| {
        assert s[i] == ns[i];
      }
    }
    forall h | h in FileHashes(ns) ensures h in FileHashes(s) {
      var i :| 0 <= i < |ns| && IsFile(ns[i]) && ns[i].hash == h;
      assert s[i] == ns[i];
    }
    if IsFile(x) {
      assert s[|ns|] == x;
    }
  }

  /** A hash with a non-empty group is the hash of some file of the list. */
  lemma GroupOfNonEmpty(ns: seq<ST.Node>, h: Hash)
    ensures GroupOf(ns, h) != [] ==> h in FileHashes(ns)
  {
    if GroupOf(ns, h) != [] {
      var y := GroupOf(ns, h)[0];
      var i :| 0 <= i < |ns| && ns[i] == y;
      assert IsFile(ns[i]) && ns[i].hash == h;
    }
  }

  /** Any file of the list sharing `x`'s hash puts that hash among the list's. */
  lemma CollidesHasHash(ns: seq<ST.Node>, x: ST.Node)
    ensures CollidesWith(ns, x) ==> x.hash in FileHashes(ns)
  {
    if CollidesWith(ns, x) {
      var i :| 0 <= i < |ns| && IsFile(ns[i]) && ns[i].hash == x.hash && ns[i].size != x.size;
    }
  }

  /** A member of a group is a file of the list, at some position. */
  lemma GroupMember(ns: seq<ST.Node>, h: Hash, y: ST.Node) returns (i: nat)
    requires y in GroupOf(ns, h)
    ensures i < |ns| && ns[i] == y && IsFile(y) && y.hash == h
  {
    i :| 0 <= i < |ns| && ns[i] == y;
  }

  /** What folding `ns` into an empty HashGroup with Add yields: the files of
      `ns` grouped by hash, in input order. */
  ghost predicate Grouped(g: HashGroup, ns: seq<ST.Node>)
  {
    && Uniform(g)
    && g.Keys == FileHashes(ns)
    && forall h :: h in g ==> g[h] == GroupOf(ns, h)
  }

  /** One Add step panics exactly on a collision with an earlier file. */
  lemma AddStepAborts(g: HashGroup, ns: seq<ST.Node>, x: ST.Node)
    requires Grouped(g, ns)
    ensures Add(g, x).Aborted? <==> CollidesWith(ns, x)
  {
    CollidesHasHash(ns, x);
    if IsFile(x) && x.hash in g {
      var h := x.hash;
      if CollidesWith(ns, x) {
        var i :| 0 <= i < |ns| && IsFile(ns[i]) && ns[i].hash == h && ns[i].size != x.size;
        assert ns[i] in GroupOf(ns, h);
        var m :| 0 <= m < |g[h]| && g[h][m] == ns[i];
      }
      if g[h][0].size != x.size {
        var i := GroupMember(ns, h, g[h][0]);
      }
    }
  }

  /** Appending a file to the group of its hash keeps every group uniform,
      provided the file has the group's size. */
  lemma UniformInsert(g: HashGroup, x: ST.Node)
    requires Uniform(g) && IsFile(x)
    requires x.hash in g ==> g[x.hash][0].size == x.size
    ensures Uniform(g[x.hash := Get(g, x.hash) + [x]])
  {
    var r := g[x.hash := Get(g, x.hash) + [x]];
    forall h | h in r
      ensures |r[h]| > 0 && forall i :: 0 <= i < |r[h]| ==> IsFile(r[h][i]) && r[h][i].hash == h && r[h][i].size == r[h][0].size
    {
      if h != x.hash {
        assert r[h] == g[h];
      }
    }
  }

  /** One successful Add step extends the grouping by the new node. */
  lemma AddStepGrouped(g: HashGroup, ns: seq<ST.Node>, x: ST.Node)
    requires Grouped(g, ns)
    requires Add(g, x).Done?
    ensures Grouped(Add(g, x).value, ns + [x])
  {
    FileHashesAppend(ns, x);
    if IsFile(x) {
      var r := g[x.hash := Get(g, x.hash) + [x]];
      assert Add(g, x).value == r;
      UniformInsert(g, x);
      GroupsInsert(g, ns, x);
    } else {
      forall h | h in g ensures g[h] == GroupOf(ns + [x], h) {
        GroupOfAppend(ns, x, h);
      }
    }
  }

  lemma GroupsInsert(g: HashGroup, ns: seq<ST.Node>, x: ST.Node)
    requires Grouped(g, ns) && IsFile(x)
    ensures forall h :: h in g[x.hash := Get(g, x.hash) + [x]] ==>
      g[x.hash := Get(g, x.hash) + [x]][h] == GroupOf(ns + [x], h)
  {
    var r := g[x.hash := Get(g, x.hash) + [x]];
    forall h | h in r ensures r[h] == GroupOf(ns + [x], h) {
      GroupOfAppend(ns, x, h);
      if h == x.hash {
        GroupOfNonEmpty(ns, h);
      }
    }
  }

  /** Folding a node list into an empty HashGroup with Add groups the files by
      hash in input order, and panics exactly when two files collide. */
  lemma {:induction false} AddAllGroups(ns: seq<ST.Node>)
    ensures AddAll(map[], ns).Aborted? <==> HasCollision(ns)
    ensures AddAll(map[], ns).Done? ==> Grouped(AddAll(map[], ns).value, ns)
  {
    if ns == [] {
      assert FileHashes(ns) == {};
    } else {
      var init := ns[..|ns| - 1];
      var x := ns[|ns| - 1];
      assert ns == init + [x];
      AddAllGroups(init);
      CollisionAppend(init, x);
      if AddAll(map[], init).Done? {
        AddStepAborts(AddAll(map[], init).value, init, x);
        if Add(AddAll(map[], init).value, x).Done? {
          AddStepGrouped(AddAll(map[], init).value, init, x);
        }
      }
    }
  }

  /** What folding `ns` into `hg` with Intersect yields: the same keys, each
      group extended by the files of `ns` with its hash. */
  ghost predicate Extended(g: HashGroup, hg: HashGroup, ns: seq<ST.Node>)
  {
    && Uniform(g)
    && g.Keys == hg.Keys
    && forall h :: h in hg ==> g[h] == hg[h] + GroupOf(ns, h)
  }

  /** `x` is a file whose hash is a key of `hg` but whose size is not that group's. */
  predicate Mismatches(hg: HashGroup, x: ST.Node)
  {
    IsFile(x) && x.hash in hg && |hg[x.hash]| > 0 && x.size != hg[x.hash][0].size
  }

  lemma IntersectStepAborts(g: HashGroup, hg: HashGroup, ns: seq<ST.Node>, x: ST.Node)
    requires Uniform(hg) && Extended(g, hg, ns)
    ensures Intersect(g, x).Aborted? <==> Mismatches(hg, x)
  {
    if IsFile(x) && x.hash in hg {
      assert g[x.hash][0] == hg[x.hash][0];
    }
  }

  lemma IntersectStepExtended(g: HashGroup, hg: HashGroup, ns: seq<ST.Node>, x: ST.Node)
    requires Uniform(hg) && Extended(g, hg, ns)
    requires Intersect(g, x).Done?
    ensures Extended(Intersect(g, x).value, hg, ns + [x])
  {
    if IsFile(x) && x.hash in hg {
      assert g[x.hash][0] == hg[x.hash][0];
      assert Intersect(g, x).value == g[x.hash := Get(g, x.hash) + [x]];
      UniformInsert(g, x);
      ExtendedInsert(g, hg, ns, x);
    } else {
      forall h | h in hg ensures g[h] == hg[h] + GroupOf(ns + [x], h) {
        GroupOfAppend(ns, x, h);
      }
    }
  }

  lemma ExtendedInsert(g: HashGroup, hg: HashGroup, ns: seq<ST.Node>, x: ST.Node)
    requires Extended(g, hg, ns) && IsFile(x) && x.hash in hg
    ensures forall h :: h in hg ==> g[x.hash := Get(g, x.hash) + [x]][h] == hg[h] + GroupOf(ns + [x], h)
  {
    forall h | h in hg ensures g[x.hash := Get(g, x.hash) + [x]][h] == hg[h] + GroupOf(ns + [x], h) {
      GroupOfAppend(ns, x, h);
      if h == x.hash {
        AppendBoth(hg[h], g[h], g[h] + [x], GroupOf(ns, h), [x]);
      }
    }
  }

  /** Folding a node list in with Intersect keeps the keys, appends each file
      whose hash is already a key to its group, and panics exactly when such a
      file's size differs from the group's. */
  lemma {:induction false} IntersectAllGroups(hg: HashGroup, ns: seq<ST.Node>)
    requires Uniform(hg)
    ensures IntersectAll(hg, ns).Aborted? <==> exists i :: 0 <= i < |ns| && Mismatches(hg, ns[i])
    ensures IntersectAll(hg, ns).Done? ==> Extended(IntersectAll(hg, ns).value, hg, ns)
  {
    if ns == [] {
      forall h | h in hg ensures GroupOf(ns, h) == [] { }
    } else {
      var init := ns[..|ns| - 1];
      var x := ns[|ns| - 1];
      assert ns == init + [x];
      IntersectAllGroups(hg, init);
      if IntersectAll(hg, init).Done? {
        IntersectStepAborts(IntersectAll(hg, init).value, hg, init, x);
        if Intersect(IntersectAll(hg, init).value, x).Done? {
          IntersectStepExtended(IntersectAll(hg, init).value, hg, init, x);
        }
      }
      MismatchAppend(hg, init, x);
    }
  }

  lemma MismatchAppend(hg: HashGroup, ns: seq<ST.Node>, x: ST.Node)
    ensures (exists i :: 0 <= i < |ns + [x]| && Mismatches(hg, (ns + [x])[i])) <==>
      (exists i :: 0 <= i < |ns| && Mismatches(hg, ns[i])) || Mismatches(hg, x)
  {
    if exists i :: 0 <= i < |ns| && Mismatches(hg, ns[i]) {
      var i :| 0 <= i < |ns| && Mismatches(hg, ns[i]);
      assert (ns + [x])[i] == ns[i];
    }
    if Mismatches(hg, x) {
      assert (ns + [x])[|ns|] == x;
    }
  }

  /** Each reference tree comes with the order its map of nodes is visited in. */
  predicate Ordered(withs: seq<ST.Tree>, worders: seq<seq<int>>)
  {
    |worders| == |withs| && forall i :: 0 <= i < |withs| ==> Enumerates(worders[i], withs[i].nodes.Keys)
  }

  lemma OrderedTail(withs: seq<ST.Tree>, worders: seq<seq<int>>)
    requires Ordered(withs, worders) && withs != []
    ensures Enumerates(worders[0], withs[0].nodes.Keys)
    ensures Ordered(withs[1..], worders[1..])
  {
    forall i | 0 <= i < |withs| - 1 ensures Enumerates(worders[1..][i], withs[1..][i].nodes.Keys) {
      assert worders[1..][i] == worders[i + 1] && withs[1..][i] == withs[i + 1];
    }
  }

  /** The file nodes of every reference tree carrying hash `h`, tree by tree,
      each tree in its map order. */
  function RefGroup(withs: seq<ST.Tree>, worders: seq<seq<int>>, h: Hash): seq<ST.Node>
    requires Ordered(withs, worders)
    decreases |withs|
  {
    if withs == [] then []
    else
      OrderedTail(withs, worders);
      GroupOf(Values(withs[0].nodes, worders[0]), h) + RefGroup(withs[1..], worders[1..], h)
  }

  predicate SameNonce(t: ST.Tree, u: ST.Tree)
  {
    t.info.Some? && u.info.Some? && t.info.value.nonce == u.info.value.nonce
  }

  /** The reference-tree loop of Tree.Trim: each reference is rejected when it
      carries the current tree's nonce, else its nodes are intersected in. */
  function IntersectWith(t: ST.Tree, hg: HashGroup, withs: seq<ST.Tree>, worders: seq<seq<int>>): Outcome<HashGroup>
    requires Ordered(withs, worders)
    decreases |withs|
  {
    if withs == [] then Done(hg)
    else if t.info.None? || withs[0].info.None? then Aborted(Panic(NilDereference))
    else if t.info.value.nonce == withs[0].info.value.nonce then Aborted(Panic(SelfTrim))
    else
      OrderedTail(withs, worders);
      match IntersectAll(hg, Values(withs[0].nodes, worders[0]))
      case Aborted(a) => Aborted(a)
      case Done(g) => IntersectWith(t, g, withs[1..], worders[1..])
  }

  /** Tree.Trim: every node of `t` is added (in map order `torder`), then the
      nodes of each reference tree are intersected in. A reference without
      header or with the tree's own nonce stops it; when it completes, its
      keys are the hashes of the files of `t`: no reference adds one. */
  function Trim(t: ST.Tree, torder: seq<int>, withs: seq<ST.Tree>, worders: seq<seq<int>>): (r: Outcome<HashGroup>)
    requires Enumerates(torder, t.nodes.Keys)
    requires Ordered(withs, worders)
    ensures (exists i :: 0 <= i < |withs| && Rejected(t, withs[i])) ==> r.Aborted?
    ensures r.Done? ==> KeyedByFiles(r.value, Values(t.nodes, torder))
  {
    AddAllGroups(Values(t.nodes, torder));
    match AddAll(map[], Values(t.nodes, torder))
    case Aborted(a) => Aborted(a)
    case Done(hg) =>
      IntersectWithGroups(t, hg, withs, worders);
      IntersectWith(t, hg, withs, worders)
  }

  /** A reference tree without header or with the current tree's nonce. */
  predicate Rejected(t: ST.Tree, u: ST.Tree)
  {
    t.info.None? || u.info.None? || SameNonce(t, u)
  }

  lemma {:induction false} IntersectWithGroups(t: ST.Tree, hg: HashGroup, withs: seq<ST.Tree>, worders: seq<seq<int>>)
    requires Uniform(hg)
    requires Ordered(withs, worders)
    ensures (exists i :: 0 <= i < |withs| && Rejected(t, withs[i])) ==> IntersectWith(t, hg, withs, worders).Aborted?
    ensures IntersectWith(t, hg, withs, worders).Done? ==>
      && Uniform(IntersectWith(t, hg, withs, worders).value)
      && IntersectWith(t, hg, withs, worders).value.Keys == hg.Keys
      && forall h :: h in hg ==> IntersectWith(t, hg, withs, worders).value[h] == hg[h] + RefGroup(withs, worders, h)
    decreases |withs|
  {
    if withs != [] && !Rejected(t, withs[0]) {
      OrderedTail(withs, worders);
      var ns := Values(withs[0].nodes, worders[0]);
      IntersectAllGroups(hg, ns);
      if IntersectAll(hg, ns).Done? {
        var g := IntersectAll(hg, ns).value;
        IntersectWithGroups(t, g, withs[1..], worders[1..]);
        if IntersectWith(t, g, withs[1..], worders[1..]).Done? {
          ExtendedChain(hg, g, IntersectWith(t, g, withs[1..], worders[1..]).value, withs, worders);
        }
        if exists i :: 0 <= i < |withs| && Rejected(t, withs[i]) {
          var i :| 0 <= i < |withs| && Rejected(t, withs[i]);
          assert withs[1..][i - 1] == withs[i];
        }
      }
    }
  }

  /** Extending by the first reference and then by the rest is extending by
      all references. */
  lemma ExtendedChain(hg: HashGroup, g: HashGroup, r: HashGroup, withs: seq<ST.Tree>, worders: seq<seq<int>>)
    requires Ordered(withs, worders) && withs != []
    requires g.Keys == hg.Keys
    requires forall h :: h in hg ==> g[h] == hg[h] + GroupOf(Values(withs[0].nodes, worders[0]), h)
    requires Ordered(withs[1..], worders[1..])
    requires r.Keys == g.Keys
    requires forall h :: h in g ==> r[h] == g[h] + RefGroup(withs[1..], worders[1..], h)
    ensures forall h :: h in hg ==> r[h] == hg[h] + RefGroup(withs, worders, h)
  {
    forall h | h in hg
      ensures r[h] == hg[h] + RefGroup(withs, worders, h)
    {
      ExtendedChainAt(hg[h], g[h], r[h], withs, worders, h);
    }
  }

  lemma ExtendedChainAt(a: seq<ST.Node>, b: seq<ST.Node>, c: seq<ST.Node>, withs: seq<ST.Tree>, worders: seq<seq<int>>, h: Hash)
    requires Ordered(withs, worders) && withs != []
    requires Ordered(withs[1..], worders[1..])
    requires b == a + GroupOf(Values(withs[0].nodes, worders[0]), h)
    requires c == b + RefGroup(withs[1..], worders[1..], h)
    ensures c == a + RefGroup(withs, worders, h)
  {
    RefGroupHead(withs, worders, h);
    AppendBoth(a, b, c, GroupOf(Values(withs[0].nodes, worders[0]), h), RefGroup(withs[1..], worders[1..], h));
  }

  lemma AppendBoth<T>(a: seq<T>, b: seq<T>, c: seq<T>, d: seq<T>, e: seq<T>)
    requires b == a + d && c == b + e
    ensures c == a + (d + e)
  {
  }

  lemma RefGroupHead(withs: seq<ST.Tree>, worders: seq<seq<int>>, h: Hash)
    requires Ordered(withs, worders) && withs != []
    ensures Enumerates(worders[0], withs[0].nodes.Keys) && Ordered(withs[1..], worders[1..])
    ensures RefGroup(withs, worders, h) == GroupOf(Values(withs[0].nodes, worders[0]), h) + RefGroup(withs[1..], worders[1..], h)
  {
    OrderedTail(withs, worders);
  }

  /** The groups Trim builds: one per hash of a file of `t`, holding the files
      of `t` with that hash followed by the matching files of each reference. */
  lemma TrimGroups(t: ST.Tree, torder: seq<int>, withs: seq<ST.Tree>, worders: seq<seq<int>>)
    requires Enumerates(torder, t.nodes.Keys)
    requires Ordered(withs, worders)
    ensures Trim(t, torder, withs, worders).Done? ==>
      && Uniform(Trim(t, torder, withs, worders).value)
      && Trim(t, torder, withs, worders).value.Keys == FileHashes(Values(t.nodes, torder))
      && forall h :: h in Trim(t, torder, withs, worders).value ==>
           Trim(t, torder, withs, worders).value[h] ==
             GroupOf(Values(t.nodes, torder), h) + RefGroup(withs, worders, h)
  {
    AddAllGroups(Values(t.nodes, torder));
    if AddAll(map[], Values(t.nodes, torder)).Done? {
      IntersectWithGroups(t, AddAll(map[], Values(t.nodes, torder)).value, withs, worders);
    }
  }

  /** The keys of a trim result are exactly the hashes of the current tree's
      files: Intersect never adds one. */
  lemma TrimKeys(t: ST.Tree, torder: seq<int>, withs: seq<ST.Tree>, worders: seq<seq<int>>)
    requires Enumerates(torder, t.nodes.Keys)
    requires Ordered(withs, worders)
    ensures Trim(t, torder, withs, worders).Done? ==>
      Trim(t, torder, withs, worders).value.Keys ==
        set k | k in t.nodes && IsFile(t.nodes[k]) :: t.nodes[k].hash
  {
    TrimGroups(t, torder, withs, worders);
    var vs := Values(t.nodes, torder);
    ValuesCover(t.nodes, torder);
    forall k | k in t.nodes && IsFile(t.nodes[k]) ensures t.nodes[k].hash in FileHashes(vs) {
      var i :| 0 <= i < |vs| && vs[i] == t.nodes[k];
    }
  }

  /** Two files of `t` share a hash but not a size. */
  predicate TreeCollides(t: ST.Tree)
  {
    exists a, b :: a in t.nodes && b in t.nodes && IsFile(t.nodes[a]) && IsFile(t.nodes[b]) &&
      t.nodes[a].hash == t.nodes[b].hash && t.nodes[a].size != t.nodes[b].size
  }

  /** `x` is a file sharing a hash, but not a size, with a file of `t`. */
  predicate ClashesWith(t: ST.Tree, x: ST.Node)
  {
    IsFile(x) && exists m :: m in t.nodes && IsFile(t.nodes[m]) && t.nodes[m].hash == x.hash && t.nodes[m].size != x.size
  }

  /** Some file of `u` shares a hash, but not a size, with a file of `t`. */
  predicate Clashes(t: ST.Tree, u: ST.Tree)
  {
    exists k :: k in u.nodes && ClashesWith(t, u.nodes[k])
  }

  lemma CollisionOfValues(t: ST.Tree, order: seq<int>)
    requires Enumerates(order, t.nodes.Keys)
    ensures HasCollision(Values(t.nodes, order)) <==> TreeCollides(t)
  {
    CollisionInTree(t, order);
    TreeCollisionInValues(t, order);
  }

  lemma CollisionInTree(t: ST.Tree, order: seq<int>)
    requires Enumerates(order, t.nodes.Keys)
    ensures HasCollision(Values(t.nodes, order)) ==> TreeCollides(t)
  {
    var vs := Values(t.nodes, order);
    if HasCollision(vs) {
      var i, j :| 0 <= i < j < |vs| && IsFile(vs[i]) && IsFile(vs[j]) && vs[i].hash == vs[j].hash && vs[i].size != vs[j].size;
      assert t.nodes[order[i]] == vs[i] && t.nodes[order[j]] == vs[j];
    }
  }

  lemma TreeCollisionInValues(t: ST.Tree, order: seq<int>)
    requires Enumerates(order, t.nodes.Keys)
    ensures TreeCollides(t) ==> HasCollision(Values(t.nodes, order))
  {
    var vs := Values(t.nodes, order);
    if TreeCollides(t) {
      var a, b :| a in t.nodes && b in t.nodes && IsFile(t.nodes[a]) && IsFile(t.nodes[b]) &&
        t.nodes[a].hash == t.nodes[b].hash && t.nodes[a].size != t.nodes[b].size;
      var i :| 0 <= i < |order| && order[i] == a;
      var j :| 0 <= j < |order| && order[j] == b;
      assert vs[i] == t.nodes[a] && vs[j] == t.nodes[b];
      if i < j {
        assert IsFile(vs[i]) && IsFile(vs[j]) && vs[i].hash == vs[j].hash && vs[i].size != vs[j].size;
      } else {
        assert IsFile(vs[j]) && IsFile(vs[i]) && vs[j].hash == vs[i].hash && vs[j].size != vs[i].size;
      }
    }
  }

  /** Against the grouping of `t`'s files, Intersect's size check fails on
      exactly the files that clash with a file of `t`. */
  lemma MismatchIsClash(t: ST.Tree, torder: seq<int>, hg: HashGroup, x: ST.Node)
    requires Enumerates(torder, t.nodes.Keys)
    requires Grouped(hg, Values(t.nodes, torder))
    ensures Mismatches(hg, x) <==> ClashesWith(t, x)
  {
    MismatchClashes(t, torder, hg, x);
    ClashMismatches(t, torder, hg, x);
  }

  lemma MismatchClashes(t: ST.Tree, torder: seq<int>, hg: HashGroup, x: ST.Node)
    requires Enumerates(torder, t.nodes.Keys)
    requires Grouped(hg, Values(t.nodes, torder))
    ensures Mismatches(hg, x) ==> ClashesWith(t, x)
  {
    var vs := Values(t.nodes, torder);
    if Mismatches(hg, x) {
      var i := GroupMember(vs, x.hash, hg[x.hash][0]);
      assert t.nodes[torder[i]] == vs[i];
    }
  }

  lemma ClashMismatches(t: ST.Tree, torder: seq<int>, hg: HashGroup, x: ST.Node)
    requires Enumerates(torder, t.nodes.Keys)
    requires Grouped(hg, Values(t.nodes, torder))
    ensures ClashesWith(t, x) ==> Mismatches(hg, x)
  {
    var vs := Values(t.nodes, torder);
    var h := x.hash;
    if ClashesWith(t, x) {
      var m :| m in t.nodes && IsFile(t.nodes[m]) && t.nodes[m].hash == h && t.nodes[m].size != x.size;
      var i :| 0 <= i < |torder| && torder[i] == m;
      assert vs[i] == t.nodes[m];
      assert h in FileHashes(vs);
      assert vs[i] in GroupOf(vs, h);
      var j :| 0 <= j < |hg[h]| && hg[h][j] == vs[i];
    }
  }

  /** Intersecting keeps the first member of every group, hence the size check. */
  lemma MismatchesKept(g: HashGroup, hg: HashGroup, ns: seq<ST.Node>)
    requires Uniform(hg) && Extended(g, hg, ns)
    ensures forall x :: Mismatches(g, x) <==> Mismatches(hg, x)
  {
    forall x ensures Mismatches(g, x) <==> Mismatches(hg, x) {
      if IsFile(x) && x.hash in hg {
        assert g[x.hash][0] == hg[x.hash][0];
      }
    }
  }

  /** Why a reference tree makes the Intersect phase stop. */
  predicate BadRef(t: ST.Tree, hg: HashGroup, u: ST.Tree)
  {
    Rejected(t, u) || exists k :: k in u.nodes && Mismatches(hg, u.nodes[k])
  }

  lemma ClashesOfValues(hg: HashGroup, u: ST.Tree, order: seq<int>)
    requires Enumerates(order, u.nodes.Keys)
    ensures (exists j :: 0 <= j < |order| && Mismatches(hg, Values(u.nodes, order)[j])) <==>
            (exists k :: k in u.nodes && Mismatches(hg, u.nodes[k]))
  {
    var vs := Values(u.nodes, order);
    if exists k :: k in u.nodes && Mismatches(hg, u.nodes[k]) {
      var k :| k in u.nodes && Mismatches(hg, u.nodes[k]);
      var j :| 0 <= j < |order| && order[j] == k;
      assert vs[j] == u.nodes[k];
    }
  }

  lemma {:induction false} IntersectWithAborts(t: ST.Tree, hg: HashGroup, withs: seq<ST.Tree>, worders: seq<seq<int>>)
    requires Uniform(hg) && Ordered(withs, worders)
    ensures IntersectWith(t, hg, withs, worders).Aborted? <==> exists i :: 0 <= i < |withs| && BadRef(t, hg, withs[i])
    decreases |withs|
  {
    if withs != [] {
      OrderedTail(withs, worders);
      if !Rejected(t, withs[0]) {
        var ns := Values(withs[0].nodes, worders[0]);
        IntersectAllGroups(hg, ns);
        ClashesOfValues(hg, withs[0], worders[0]);
        if IntersectAll(hg, ns).Done? {
          var g := IntersectAll(hg, ns).value;
          IntersectWithAborts(t, g, withs[1..], worders[1..]);
          MismatchesKept(g, hg, ns);
          if exists i :: 0 <= i < |withs| && BadRef(t, hg, withs[i]) {
            var i :| 0 <= i < |withs| && BadRef(t, hg, withs[i]);
            assert i != 0;
            assert BadRef(t, g, withs[1..][i - 1]);
          }
          if exists i :: 0 <= i < |withs| - 1 && BadRef(t, g, withs[1..][i]) {
            var i :| 0 <= i < |withs| - 1 && BadRef(t, g, withs[1..][i]);
            assert BadRef(t, hg, withs[i + 1]);
          }
        }
      }
    }
  }

  /** Trim panics exactly when two files of `t` collide, or some reference
      tree lacks a header, carries `t`'s nonce, or holds a file clashing with
      one of `t`'s. It does not depend on the map orders, and references are
      never compared with each other. */
  lemma TrimAborts(t: ST.Tree, torder: seq<int>, withs: seq<ST.Tree>, worders: seq<seq<int>>)
    requires Enumerates(torder, t.nodes.Keys)
    requires Ordered(withs, worders)
    ensures Trim(t, torder, withs, worders).Aborted? <==>
      TreeCollides(t) || exists i :: 0 <= i < |withs| && (Rejected(t, withs[i]) || Clashes(t, withs[i]))
  {
    var vs := Values(t.nodes, torder);
    AddAllGroups(vs);
    CollisionOfValues(t, torder);
    if AddAll(map[], vs).Done? {
      var hg := AddAll(map[], vs).value;
      IntersectWithAborts(t, hg, withs, worders);
      forall u: ST.Tree ensures BadRef(t, hg, u) <==> Rejected(t, u) || Clashes(t, u) {
        forall x: ST.Node ensures Mismatches(hg, x) <==> ClashesWith(t, x) {
          MismatchIsClash(t, torder, hg, x);
        }
      }
    }
  }

  /** Every file of `t` has size `s`. */
  predicate FilesSized(t: ST.Tree, s: int)
  {
    forall k :: k in t.nodes && IsFile(t.nodes[k]) ==> t.nodes[k].size == s
  }

  /** Trees whose files all have one size neither collide nor clash. */
  lemma SameSizeNeverClashes(t: ST.Tree, u: ST.Tree, s: int)
    requires FilesSized(t, s) && FilesSized(u, s)
    ensures !TreeCollides(t) && !Clashes(t, u)
  {
  }

  /** Trimming a tree with itself panics. */
  lemma SelfTrimPanics(t: ST.Tree, torder: seq<int>)
    requires Enumerates(torder, t.nodes.Keys)
    ensures Trim(t, torder, [t], [torder]).Aborted?
  {
    TrimAborts(t, torder, [t], [torder]);
    assert Rejected(t, [t][0]);
  }

  predicate Known(n: ST.Node)
  {
    n.owner.Some? && n.owner.value.nonce.Some?
  }

  /** The distinct snapshot nonces among the members of a group. */
  function Nonces(g: seq<ST.Node>): set<Nonce>
  {
    set i | 0 <= i < |g| && Known(g[i]) :: g[i].owner.value.nonce.value
  }

  /** HashGroup.PruneSingleTreeGroups: deletes every group with at most one
      member or whose members all come from one snapshot; reading the nonce of
      a member without tree or header panics. */
  function PruneSingleTreeGroups(hg: HashGroup): (r: Outcome<HashGroup>)
    ensures r.Aborted? <==> exists h :: h in hg && |hg[h]| > 1 && exists i :: 0 <= i < |hg[h]| && !Known(hg[h][i])
    ensures r.Done? ==> r.value.Keys <= hg.Keys
    ensures r.Done? ==> forall h :: h in r.value ==> r.value[h] == hg[h] && |hg[h]| > 1 && |Nonces(hg[h])| >= 2
    ensures r.Done? ==> forall h :: h in hg && (|hg[h]| <= 1 || |Nonces(hg[h])| <= 1) ==> h !in r.value
    ensures r.Done? ==> forall h :: h in hg && |hg[h]| > 1 && |Nonces(hg[h])| >= 2 ==> h in r.value
  {
    if exists h :: h in hg && |hg[h]| > 1 && exists i :: 0 <= i < |hg[h]| && !Known(hg[h][i]) then
      Aborted(Panic(NilDereference))
    else
      Done(map h | h in hg && |hg[h]| > 1 && |Nonces(hg[h])| > 1 :: hg[h])
  }

  /** An engine whose members all come from one snapshot prunes to nothing. */
  lemma SingleTreePrunesToEmpty(hg: HashGroup, nonce: Nonce)
    requires forall h, i :: h in hg && 0 <= i < |hg[h]| ==> Known(hg[h][i]) && hg[h][i].owner.value.nonce.value == nonce
    ensures PruneSingleTreeGroups(hg) == Done(map[])
  {
    forall h | h in hg ensures |Nonces(hg[h])| <= 1 {
      assert Nonces(hg[h]) <= {nonce};
      assert |{nonce}| == 1;
      SubsetSize(Nonces(hg[h]), {nonce});
    }
  }

  lemma SubsetSize<T>(a: set<T>, b: set<T>)
    requires a <= b
    ensures |a| <= |b|
  {
    assert b == a + (b - a);
  }

  /** HashGroup.Select: the members owned by `t`, group by group in map order
      `order`, each group in member order. */
  function Select(hg: HashGroup, t: ST.Tree, order: seq<Hash>): (r: seq<ST.Node>)
    requires forall i :: 0 <= i < |order| ==> order[i] in hg
    ensures forall x :: x in r ==> ST.OwnedBy(x, t) && exists i :: 0 <= i < |order| && x in hg[order[i]]
    ensures forall i, x :: 0 <= i < |order| && x in hg[order[i]] && ST.OwnedBy(x, t) ==> x in r
  {
    if order == [] then []
    else
      var rest := Select(hg, t, order[1..]);
      assert forall i :: 1 <= i < |order| ==> order[1..][i - 1] == order[i];
      Filter(ST.Owns(t), hg[order[0]]) + rest
  }

  /** What Select returns for a group is what SplitNodes puts on its `in` side. */
  lemma SelectIsSplitIn(hg: HashGroup, t: ST.Tree, h: Hash)
    requires h in hg
    ensures Select(hg, t, [h]) == ST.SplitNodes(t, hg[h]).0
  {
  }

  /** Trim, then PruneSingleTreeGroups, never proposes a file without a copy
      elsewhere: every member of a surviving group has a file of equal hash and
      size in some reference tree. */
  lemma TrimSafety(t: ST.Tree, torder: seq<int>, withs: seq<ST.Tree>, worders: seq<seq<int>>)
    requires ST.Indexed(t) && t.info.Some?
    requires Enumerates(torder, t.nodes.Keys)
    requires Ordered(withs, worders)
    requires Trim(t, torder, withs, worders).Done?
    requires PruneSingleTreeGroups(Trim(t, torder, withs, worders).value).Done?
    ensures forall h: Hash, x: ST.Node ::
              h in PruneSingleTreeGroups(Trim(t, torder, withs, worders).value).value &&
              x in PruneSingleTreeGroups(Trim(t, torder, withs, worders).value).value[h] ==>
              HasCopy(withs, x)
  {
    TrimGroups(t, torder, withs, worders);
    var hg := Trim(t, torder, withs, worders).value;
    var pr := PruneSingleTreeGroups(hg).value;
    forall h: Hash, x: ST.Node | h in pr && x in pr[h]
      ensures HasCopy(withs, x)
    {
      SurvivorHasCopy(t, torder, withs, worders, hg[h], h, x);
    }
  }

  /** A member of a group spanning two snapshots, built from the current tree
      and the references, has a copy in a reference tree. */
  lemma SurvivorHasCopy(t: ST.Tree, torder: seq<int>, withs: seq<ST.Tree>, worders: seq<seq<int>>,
                        g: seq<ST.Node>, h: Hash, x: ST.Node)
    requires ST.Indexed(t) && t.info.Some?
    requires Enumerates(torder, t.nodes.Keys)
    requires Ordered(withs, worders)
    requires g == GroupOf(Values(t.nodes, torder), h) + RefGroup(withs, worders, h)
    requires forall i :: 0 <= i < |g| ==> g[i].size == g[0].size
    requires |Nonces(g)| >= 2 && x in g
    ensures HasCopy(withs, x)
  {
    var y := OtherNonceMember(g, t.info.value.nonce);
    OwnNodesCarryNonce(t, torder, h, y);
    var i, k := InRefGroup(withs, worders, h, y);
    var xi :| 0 <= xi < |g| && g[xi] == x;
    var yi :| 0 <= yi < |g| && g[yi] == y;
    if x in GroupOf(Values(t.nodes, torder), h) {
      var _ := GroupMember(Values(t.nodes, torder), h, x);
    } else {
      var _, _ := InRefGroup(withs, worders, h, x);
    }
    assert withs[i].nodes[k] == y;
  }

  /** The current tree's own nodes all carry its nonce. */
  lemma OwnNodesCarryNonce(t: ST.Tree, torder: seq<int>, h: Hash, y: ST.Node)
    requires ST.Indexed(t)
    requires Enumerates(torder, t.nodes.Keys)
    ensures y in GroupOf(Values(t.nodes, torder), h) ==> y.owner == Some(ST.OwnerOf(t))
  {
    var vs := Values(t.nodes, torder);
    if y in GroupOf(vs, h) {
      var j := GroupMember(vs, h, y);
      assert t.nodes[torder[j]] == y;
    }
  }

  /** Some reference tree holds a file with the hash and size of `x`. */
  predicate HasCopy(withs: seq<ST.Tree>, x: ST.Node)
  {
    exists i, k :: 0 <= i < |withs| && k in withs[i].nodes &&
      IsFile(withs[i].nodes[k]) && withs[i].nodes[k].hash == x.hash && withs[i].nodes[k].size == x.size
  }

  /** A group spanning two nonces has a member whose nonce is not `tn`. */
  lemma OtherNonceMember(g: seq<ST.Node>, tn: Nonce) returns (y: ST.Node)
    requires |Nonces(g)| >= 2
    ensures y in g && Known(y) && y.owner.value.nonce.value != tn
  {
    var a :| a in Nonces(g) && a != tn by {
      if forall a :: a in Nonces(g) ==> a == tn {
        SubsetSize(Nonces(g), {tn});
        assert false;
      }
    }
    var i :| 0 <= i < |g| && Known(g[i]) && g[i].owner.value.nonce.value == a;
    y := g[i];
  }

  lemma InRefGroup(withs: seq<ST.Tree>, worders: seq<seq<int>>, h: Hash, y: ST.Node) returns (i: nat, k: int)
    requires Ordered(withs, worders)
    requires y in RefGroup(withs, worders, h)
    ensures i < |withs| && k in withs[i].nodes && withs[i].nodes[k] == y && IsFile(y) && y.hash == h
    decreases |withs|
  {
    OrderedTail(withs, worders);
    var here := GroupOf(Values(withs[0].nodes, worders[0]), h);
    if y in here {
      var vs := Values(withs[0].nodes, worders[0]);
      var j :| 0 <= j < |vs| && vs[j] == y;
      i, k := 0, worders[0][j];
    } else {
      OrderedTail(withs, worders);
      var i', k' := InRefGroup(withs[1..], worders[1..], h, y);
      i, k := i' + 1, k';
    }
  }
}
