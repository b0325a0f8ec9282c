/** Loading a snapshot into hash groups (core/group.go): directory nodes are
    skipped, the others gathered by hash, a same-hash, different-size node
    ends the program through log.Fatal, and at the end of the stream every
    group is sorted by path. Dedup then counts the duplicated groups and the
    bytes they waste. */
module CoreGroup {
  import opened Base
  import opened Grouping
  import opened CoreNode

  /** Nodes are grouped by hash and size; directories are skipped. */
  function NodeView(): View<CNode>
  {
    View((n: CNode) => n.hash, (n: CNode) => n.size, (n: CNode) => n.kind == Dir)
  }

  // ---------------------------------------------------------------------
  // ByPath ordering

  /** Go's `<` on strings: byte-wise lexicographic order, a proper prefix
      first. On the code points of a UTF-8 string it is the same order. */
  predicate LexLess(a: string, b: string)
  {
    if a == [] then b != []
    else if b == [] then false
    else a[0] < b[0] || (a[0] == b[0] && LexLess(a[1..], b[1..]))
  }

  lemma {:induction false} LexLessAsymmetric(a: string, b: string)
    ensures LexLess(a, b) ==> !LexLess(b, a)
  {
    if a != [] && b != [] && a[0] == b[0] {
      LexLessAsymmetric(a[1..], b[1..]);
    }
  }

  lemma {:induction false} LexLessIrreflexive(a: string)
    ensures !LexLess(a, a)
  {
    if a != [] {
      LexLessIrreflexive(a[1..]);
    }
  }

  /** The path ByPath compares a node by. */
  function PathKey(n: CNode): string
  {
    Path(n).path
  }

  /** Ascending by path: no node has a path smaller than the one before it. */
  predicate Ascending(ns: seq<CNode>)
  {
    forall i :: 0 < i < |ns| ==> !LexLess(PathKey(ns[i]), PathKey(ns[i - 1]))
  }

  /** `x` inserted before the first node whose path is not smaller. */
  function Insert(x: CNode, s: seq<CNode>): seq<CNode>
  {
    if s == [] then [x]
    else if !LexLess(PathKey(s[0]), PathKey(x)) then [x] + s
    else [s[0]] + Insert(x, s[1..])
  }

  /** Insert adds `x` and keeps every other node. */
  lemma {:induction false} InsertKeeps(x: CNode, s: seq<CNode>)
    ensures multiset(Insert(x, s)) == multiset(s) + multiset{x}
    ensures |Insert(x, s)| == |s| + 1
  {
    if s != [] && LexLess(PathKey(s[0]), PathKey(x)) {
      InsertKeeps(x, s[1..]);
      assert s == [s[0]] + s[1..];
    }
  }

  /** Insert keeps a list ascending; its head is `x` or the old head. */
  lemma {:induction false} InsertSorted(x: CNode, s: seq<CNode>)
    requires Ascending(s)
    ensures Ascending(Insert(x, s))
    ensures Insert(x, s)[0] == x || (s != [] && Insert(x, s)[0] == s[0])
  {
    InsertKeeps(x, s);
    if s != [] && LexLess(PathKey(s[0]), PathKey(x)) {
      var t := s[1..];
      assert Ascending(t) by {
        forall i | 0 < i < |t| ensures !LexLess(PathKey(t[i]), PathKey(t[i - 1])) {
          assert t[i] == s[i + 1] && t[i - 1] == s[i];
        }
      }
      InsertSorted(x, t);
      InsertKeeps(x, t);
      LexLessAsymmetric(PathKey(s[0]), PathKey(x));
      var u := Insert(x, t);
      var r := Insert(x, s);
      assert r == [s[0]] + u;
      assert !LexLess(PathKey(u[0]), PathKey(s[0])) by {
        if u[0] != x {
          assert u[0] == s[1];
        }
      }
      forall i | 0 < i < |r| ensures !LexLess(PathKey(r[i]), PathKey(r[i - 1])) {
        if i > 1 {
          assert r[i] == u[i - 1] && r[i - 1] == u[i - 2];
        }
      }
    }
  }

  /** The sort applied to a group's nodes: an insertion sort by path. */
  function SortByPath(ns: seq<CNode>): seq<CNode>
  {
    if ns == [] then [] else Insert(ns[0], SortByPath(ns[1..]))
  }

  /** The sorted nodes are the same nodes, ascending by path. */
  lemma {:induction false} SortByPathSorts(ns: seq<CNode>)
    ensures Ascending(SortByPath(ns))
    ensures multiset(SortByPath(ns)) == multiset(ns)
    ensures |SortByPath(ns)| == |ns|
  {
    if ns != [] {
      SortByPathSorts(ns[1..]);
      InsertSorted(ns[0], SortByPath(ns[1..]));
      InsertKeeps(ns[0], SortByPath(ns[1..]));
      assert ns == [ns[0]] + ns[1..];
    }
  }

  /** A list sort.Sort(ByPath) panics on: it has two nodes or more, so every
      node's path is computed by some comparison, and one of them fails. */
  predicate Unsortable(ns: seq<CNode>)
  {
    |ns| > 1 && exists i :: 0 <= i < |ns| && Path(ns[i]).err.Some?
  }

  /** The end-of-stream loop: sort every group by path. A group of one node
      is never compared, so its path may fail. */
  function SortGroups(hg: HashGroup<CNode>): (r: Outcome<HashGroup<CNode>>)
    ensures r.Aborted? <==> exists h :: h in hg && Unsortable(hg[h].members)
    ensures r.Aborted? ==> r.abort == Panic(PathUnavailable)
    ensures r.Done? ==>
      && r.value.Keys == hg.Keys
      && forall h :: h in hg ==>
           && r.value[h].size == hg[h].size
           && Ascending(r.value[h].members)
           && multiset(r.value[h].members) == multiset(hg[h].members)
  {
    if exists h :: h in hg && Unsortable(hg[h].members) then Aborted(Panic(PathUnavailable))
    else
      var s := map h | h in hg :: Group(SortByPath(hg[h].members), hg[h].size);
      assert forall h :: h in hg ==> s[h].members == SortByPath(hg[h].members) by {
        forall h | h in hg ensures s[h].members == SortByPath(hg[h].members) {}
      }
      assert forall h :: h in hg ==>
        Ascending(s[h].members) && multiset(s[h].members) == multiset(hg[h].members) by {
        forall h | h in hg
          ensures Ascending(s[h].members) && multiset(s[h].members) == multiset(hg[h].members)
        {
          SortByPathSorts(hg[h].members);
        }
      }
      Done(s)
  }

  /** Groups of at most one node are never compared: sorting them neither
      panics nor changes them. */
  lemma SortSingletons(hg: HashGroup<CNode>)
    requires forall h :: h in hg ==> |hg[h].members| <= 1
    ensures SortGroups(hg) == Done(hg)
  {
    assert !exists h :: h in hg && Unsortable(hg[h].members);
    var r := SortGroups(hg).value;
    forall h | h in hg ensures r[h] == hg[h] {
      var ns := hg[h].members;
      assert SortByPath(ns) == ns by {
        if ns != [] {
          assert ns[1..] == [];
        }
      }
    }
    assert r.Keys == hg.Keys;
    assert r == hg;
  }

  // ---------------------------------------------------------------------
  // Load

  /** What Load leaves: the map it filled and the error it returned. */
  datatype Loaded = Loaded(hg: HashGroup<CNode>, err: Option<Error>)

  /** One receive of the select loop: a node from the node channel, or a
      value from the error channel. The latter is an error, or nil once that
      channel is closed; the channel read of a snapshot file closes it
      before the node channel, so the nil receive can win the select at the
      end of every stream. */
  datatype LoadEvent = Arrives(node: CNode) | Raised(err: Option<Error>)

  /** HashGroup.Load. `openErr` is the error of opening the snapshot's node
      channel. `events` is what the select loop receives, in order; the end
      of the sequence is the node channel being closed. A failed open is
      returned with the map untouched; otherwise the error returned is the
      first value received from the error channel, or nil when the node
      channel closed first. */
  function Load(hg: HashGroup<CNode>, openErr: Option<Error>, events: seq<LoadEvent>): (r: Outcome<Loaded>)
    ensures openErr.Some? ==> r.Done? && r.value.hg == hg
    ensures r.Done? ==>
      r.value.err == if openErr.Some? then openErr else if Interruption(events).Some? then Interruption(events).value else None
  {
    if openErr.Some? then Done(Loaded(hg, openErr)) else LoadEvents(hg, events)
  }

  /** The select loop: a receive from the error channel returns what it
      received, nil included, with the groups as they are; a node goes
      through one grouping step under log.Fatal; the closed node channel
      sorts every group and returns nil, so every group is then ascending
      by path. */
  function LoadEvents(hg: HashGroup<CNode>, events: seq<LoadEvent>): (r: Outcome<Loaded>)
    ensures r.Done? ==> r.value.err == if Interruption(events).Some? then Interruption(events).value else None
    ensures r.Done? && Interruption(events).None? ==> forall h :: h in r.value.hg ==> Ascending(r.value.hg[h].members)
    decreases |events|
  {
    if events == [] then
      match SortGroups(hg)
      case Aborted(a) => Aborted(a)
      case Done(s) => Done(Loaded(s, None))
    else match events[0]
      case Raised(e) => Done(Loaded(hg, e))
      case Arrives(n) =>
        match Step(hg, n, NodeView(), Exits)
        case Aborted(a) => Aborted(a)
        case Done(g) => LoadEvents(g, events[1..])
  }

  /** The nodes received before the first receive from the error channel. */
  function Arrived(events: seq<LoadEvent>): seq<CNode>
  {
    if events == [] || events[0].Raised? then [] else [events[0].node] + Arrived(events[1..])
  }

  /** What the first receive from the error channel yielded, if the loop
      made one: an error, or nil from the closed channel. */
  function Interruption(events: seq<LoadEvent>): Option<Option<Error>>
  {
    if events == [] then None
    else if events[0].Raised? then Some(events[0].err)
    else Interruption(events[1..])
  }

  /** The loop is the grouping fold over the nodes that arrived, followed by
      the sort only when the node channel closed first. */
  lemma {:induction false} LoadIsFold(hg: HashGroup<CNode>, events: seq<LoadEvent>)
    ensures LoadEvents(hg, events) ==
      match Fold(hg, Arrived(events), NodeView(), Exits)
      case Aborted(a) => Aborted(a)
      case Done(g) =>
        if Interruption(events).Some? then Done(Loaded(g, Interruption(events).value))
        else match SortGroups(g)
          case Aborted(a) => Aborted(a)
          case Done(s) => Done(Loaded(s, None))
    decreases |events|
  {
    if events != [] && events[0].Arrives? {
      var n := events[0].node;
      FoldCons(hg, n, Arrived(events[1..]), NodeView(), Exits);
      if Step(hg, n, NodeView(), Exits).Done? {
        LoadIsFold(Step(hg, n, NodeView(), Exits).value, events[1..]);
      }
    }
  }

  /** Load into a fresh map stops the program exactly when two arrived
      files share a hash but not a size (log.Fatal), or, when the node
      channel closes before anything is received from the error channel, a
      group of two or more files holds one whose path fails (a panic in
      ByPath.Less). */
  lemma LoadAborts(events: seq<LoadEvent>)
    ensures Load(map[], None, events).Aborted? <==>
      || Collides(Arrived(events), NodeView())
      || (Interruption(events).None? && exists h :: Unsortable(Kept(Arrived(events), NodeView(), h)))
    ensures Load(map[], None, events).Aborted? ==>
      Load(map[], None, events).abort ==
        (if Collides(Arrived(events), NodeView()) then Fatal(Collision) else Panic(PathUnavailable))
  {
    var xs := Arrived(events);
    LoadIsFold(map[], events);
    FoldAborts(xs, NodeView(), Exits);
    if Fold(map[], xs, NodeView(), Exits).Done? {
      FoldGrouped(xs, NodeView(), Exits);
      UnsortableGroups(Fold(map[], xs, NodeView(), Exits).value, xs);
    }
  }

  /** In a grouping of `xs`, a group is unsortable exactly when the nodes of
      its hash are. */
  lemma UnsortableGroups(g: HashGroup<CNode>, xs: seq<CNode>)
    requires Grouped(g, xs, NodeView(), Exits)
    ensures (exists h :: h in g && Unsortable(g[h].members)) <==>
            (exists h :: Unsortable(Kept(xs, NodeView(), h)))
  {
    if exists h :: Unsortable(Kept(xs, NodeView(), h)) {
      var h :| Unsortable(Kept(xs, NodeView(), h));
      UnsortableGroupAt(g, xs, h);
    }
    if exists h :: h in g && Unsortable(g[h].members) {
      var h :| h in g && Unsortable(g[h].members);
      UnsortableGroupAt(g, xs, h);
    }
  }

  lemma UnsortableGroupAt(g: HashGroup<CNode>, xs: seq<CNode>, h: Hash)
    requires GroupedAt(g, xs, NodeView(), Exits, h)
    ensures Unsortable(Kept(xs, NodeView(), h)) <==> h in g && Unsortable(g[h].members)
  {
  }

  /** When the loop receives from the error channel, Load returns what it
      received (nil from the closed channel included) with the arrived
      non-directory nodes grouped by hash in arrival order, unsorted. */
  lemma LoadInterrupted(events: seq<LoadEvent>, r: Loaded)
    requires Load(map[], None, events) == Done(r)
    requires Interruption(events).Some?
    ensures r.err == Interruption(events).value
    ensures Grouped(r.hg, Arrived(events), NodeView(), Exits)
  {
    LoadIsFold(map[], events);
    FoldGrouped(Arrived(events), NodeView(), Exits);
  }

  /** The node groups of `xs`, each sorted by path: a key for every hash of
      a non-directory node and no other, the size of the first such node, and
      the nodes of that hash, ascending by path. */
  ghost predicate SortedGroups(hg: HashGroup<CNode>, xs: seq<CNode>)
  {
    forall h :: SortedGroupAt(hg, xs, h)
  }

  ghost predicate SortedGroupAt(hg: HashGroup<CNode>, xs: seq<CNode>, h: Hash)
  {
    && (h in hg <==> Kept(xs, NodeView(), h) != [])
    && (h in hg ==>
          && hg[h].size == Kept(xs, NodeView(), h)[0].size
          && Ascending(hg[h].members)
          && multiset(hg[h].members) == multiset(Kept(xs, NodeView(), h)))
  }

  /** When the node channel closes before anything is received from the
      error channel, Load returns nil with the arrived nodes grouped and
      every group sorted by path. */
  lemma LoadCompleted(events: seq<LoadEvent>, r: Loaded)
    requires Load(map[], None, events) == Done(r)
    requires Interruption(events).None?
    ensures r.err.None?
    ensures SortedGroups(r.hg, Arrived(events))
  {
    var xs := Arrived(events);
    LoadIsFold(map[], events);
    FoldGrouped(xs, NodeView(), Exits);
    var g := Fold(map[], xs, NodeView(), Exits).value;
    forall h ensures SortedGroupAt(r.hg, xs, h) {
      assert GroupedAt(g, xs, NodeView(), Exits, h);
    }
  }

  /** A regular file node whose path is cached as its root path. */
  function RootedFile(id: nat, path: string, size: nat, hash: Hash): CNode
  {
    CNode(id, Regular, path, size, hash, 0, None, path, 0, path)
  }

  /** The nil receive from the closed error channel returns before the
      sort: two copies of one file that arrive in descending path order come
      back with nil, still in that order. */
  lemma NilErrorSkipsSort(h: Hash)
    ensures var b, a := RootedFile(1, "/b", 1, h), RootedFile(2, "/a", 1, h);
      && Load(map[], None, [Arrives(b), Arrives(a), Raised(None)]) == Done(Loaded(map[h := Group([b, a], 1)], None))
      && !Ascending([b, a])
  {
    var b, a := RootedFile(1, "/b", 1, h), RootedFile(2, "/a", 1, h);
    var es := [Arrives(b), Arrives(a), Raised(None)];
    var g1 := map[h := Group([b], 1)];
    var g2 := map[h := Group([b, a], 1)];
    assert Step(map[], b, NodeView(), Exits) == Done(g1);
    assert NodeView().hashOf(a) == h && NodeView().sizeOf(a) == 1 && !NodeView().skip(a);
    assert g1[h := g1[h].(members := g1[h].members + [a])] == g2 by {
      assert g1[h].members + [a] == [b, a];
    }
    assert Step(g1, a, NodeView(), Exits) == Done(g2);
    assert LoadEvents(g2, es[2..]) == Done(Loaded(g2, None));
    assert LoadEvents(g1, es[1..]) == LoadEvents(g2, es[2..]);
    assert PathKey(a) == "/a" && PathKey(b) == "/b";
    assert LexLess("/a", "/b") by {
      assert "/a"[1..] == "a" && "/b"[1..] == "b";
      assert LexLess("a", "b");
    }
    assert LexLess(PathKey([b, a][1]), PathKey([b, a][0]));
  }

  /** A node as the test helper builds it: no parent pointer, no cached path
      and no root path, so its Path fails. */
  function TestNode(id: nat, name: string, kind: Kind, size: nat, hash: Hash, parentId: nat): CNode
  {
    CNode(id, kind, name, size, hash, parentId, None, "", 0, "")
  }

  /** The in-memory snapshot of TestAbs, in the order its helper flattens
      it: the directory "/" holding the directory "a" (with "c" = "aze" and
      "d" = "foo") and the file "b" = "bar". Directories carry the zero
      hash; each file carries the digest of its three-byte content. */
  function AbsEvents(haze: Hash, hfoo: Hash, hbar: Hash): seq<LoadEvent>
  {
    [ Arrives(TestNode(5, "/", Dir, 0, ZeroHash(), 0)),
      Arrives(TestNode(3, "a", Dir, 0, ZeroHash(), 5)),
      Arrives(TestNode(1, "c", Regular, 3, haze, 3)),
      Arrives(TestNode(2, "d", Regular, 3, hfoo, 3)),
      Arrives(TestNode(4, "b", Regular, 3, hbar, 5)) ]
  }

  /** The groups the fixture's nodes form: one per file. */
  function AbsGroups(haze: Hash, hfoo: Hash, hbar: Hash): HashGroup<CNode>
  {
    map[haze := Group([TestNode(1, "c", Regular, 3, haze, 3)], 3),
        hfoo := Group([TestNode(2, "d", Regular, 3, hfoo, 3)], 3),
        hbar := Group([TestNode(4, "b", Regular, 3, hbar, 5)], 3)]
  }

  /** The select loop over the fixture skips both directories and makes one
      group per file before the channel closes. */
  lemma AbsFold(haze: Hash, hfoo: Hash, hbar: Hash)
    requires haze != hfoo && haze != hbar && hfoo != hbar
    ensures LoadEvents(map[], AbsEvents(haze, hfoo, hbar)) == LoadEvents(AbsGroups(haze, hfoo, hbar), [])
  {
    var es := AbsEvents(haze, hfoo, hbar);
    var c := TestNode(1, "c", Regular, 3, haze, 3);
    var d := TestNode(2, "d", Regular, 3, hfoo, 3);
    var b := TestNode(4, "b", Regular, 3, hbar, 5);
    var v := NodeView();
    var g1 := map[haze := Group([c], 3)];
    var g2 := g1[hfoo := Group([d], 3)];
    var g := g2[hbar := Group([b], 3)];
    assert g == AbsGroups(haze, hfoo, hbar);
    assert Step(map[], es[0].node, v, Exits) == Done(map[]);
    assert Step(map[], es[1].node, v, Exits) == Done(map[]);
    assert Step(map[], c, v, Exits) == Done(g1);
    assert Step(g1, d, v, Exits) == Done(g2);
    assert Step(g2, b, v, Exits) == Done(g);
    assert LoadEvents(g, es[5..]) == LoadEvents(g, []);
    assert LoadEvents(g2, es[4..]) == LoadEvents(g, es[5..]);
    assert LoadEvents(g1, es[3..]) == LoadEvents(g2, es[4..]);
    assert LoadEvents(map[], es[2..]) == LoadEvents(g1, es[3..]);
    assert LoadEvents(map[], es[1..]) == LoadEvents(map[], es[2..]);
  }

  /** TestAbs: with distinct digests Load succeeds (every group has one
      node, so no path is ever compared) and leaves one group per file. */
  lemma TestAbs(haze: Hash, hfoo: Hash, hbar: Hash)
    requires haze != hfoo && haze != hbar && hfoo != hbar
    ensures Load(map[], None, AbsEvents(haze, hfoo, hbar)) == Done(Loaded(AbsGroups(haze, hfoo, hbar), None))
  {
    var g := AbsGroups(haze, hfoo, hbar);
    assert Load(map[], None, AbsEvents(haze, hfoo, hbar)) == LoadEvents(g, []) by {
      AbsFold(haze, hfoo, hbar);
    }
    assert LoadEvents(g, []) == Done(Loaded(g, None)) by {
      AbsSorted(haze, hfoo, hbar);
    }
  }

  /** The checks of TestAbs on those groups: the digest of "aze" is a key,
      that of "foe" is not (when it differs from the three contents'), and
      neither is the directories' zero hash (when no content has it). */
  lemma AbsKeys(haze: Hash, hfoo: Hash, hbar: Hash, hfoe: Hash)
    requires hfoe != haze && hfoe != hfoo && hfoe != hbar
    requires ZeroHash() != haze && ZeroHash() != hfoo && ZeroHash() != hbar
    ensures AbsGroups(haze, hfoo, hbar).Keys == {haze, hfoo, hbar}
    ensures haze in AbsGroups(haze, hfoo, hbar)
    ensures hfoe !in AbsGroups(haze, hfoo, hbar) && ZeroHash() !in AbsGroups(haze, hfoo, hbar)
  {
  }

  /** Sorting groups of one node each leaves them as they are. */
  lemma AbsSorted(haze: Hash, hfoo: Hash, hbar: Hash)
    ensures SortGroups(AbsGroups(haze, hfoo, hbar)) == Done(AbsGroups(haze, hfoo, hbar))
  {
    SortSingletons(AbsGroups(haze, hfoo, hbar));
  }

  // ---------------------------------------------------------------------
  // Dedup arithmetic

  /** The number of groups with more than one node. */
  function DupCount(gs: seq<Group<CNode>>): nat
  {
    if gs == [] then 0
    else DupCount(gs[..|gs| - 1]) + (if |gs[|gs| - 1].members| > 1 then 1 else 0)
  }

  /** The bytes the extra copies take: for every group with more than one
      node, its size times the number of nodes beyond the first. */
  function Waste(gs: seq<Group<CNode>>): int
  {
    if gs == [] then 0
    else
      var g := gs[|gs| - 1];
      Waste(gs[..|gs| - 1]) + (if |g.members| > 1 then g.size * (|g.members| - 1) else 0)
  }

  /** HashGroup.Dedup without its printing: the number of duplicated groups
      and the wasted bytes, both uint64 counters that wrap around, as the
      product `Size*uint64(cnt-1)` does. */
  method DedupStats(hg: HashGroup<CNode>, order: seq<Hash>) returns (dupGroup: nat, dupSize: nat)
    requires Enumerates(order, hg.Keys)
    ensures dupGroup == WrapU64(DupCount(Values(hg, order)))
    ensures dupSize == WrapU64(Waste(Values(hg, order)))
    ensures DupCount(Values(hg, order)) == |Duplicates(hg, order)|
  {
    var gs := Values(hg, order);
    dupGroup, dupSize := 0, 0;
    var i := 0;
    while i < |gs|
      invariant 0 <= i <= |gs|
      invariant dupGroup == WrapU64(DupCount(gs[..i]))
      invariant dupSize == WrapU64(Waste(gs[..i]))
    {
      var g := gs[i];
      StatsPrefix(gs, i);
      if |g.members| > 1 {
        var extra := g.size * (|g.members| - 1);
        WrapAdd(DupCount(gs[..i]), 1);
        dupGroup := WrapU64(dupGroup + 1);
        WrapAddBoth(Waste(gs[..i]), extra);
        dupSize := WrapU64(dupSize + WrapU64(extra));
      }
      i := i + 1;
    }
    assert gs[..|gs|] == gs;
    DupCountFilter(gs);
  }

  /** One more group in the prefix adds its share to both totals. */
  lemma StatsPrefix(gs: seq<Group<CNode>>, i: nat)
    requires i < |gs|
    ensures DupCount(gs[..i + 1]) == DupCount(gs[..i]) + (if |gs[i].members| > 1 then 1 else 0)
    ensures Waste(gs[..i + 1]) ==
      Waste(gs[..i]) + (if |gs[i].members| > 1 then gs[i].size * (|gs[i].members| - 1) else 0)
  {
    assert gs[..i + 1][..i] == gs[..i];
  }

  /** Adding two wrapped values wraps like adding the exact ones. */
  lemma WrapAddBoth(a: int, b: int)
    ensures WrapU64(WrapU64(a) + WrapU64(b)) == WrapU64(a + b)
  {
    WrapAdd(b, WrapU64(a));
    WrapAdd(a, b);
  }

  /** DupCount counts the groups Duplicates keeps. */
  lemma {:induction false} DupCountFilter(gs: seq<Group<CNode>>)
    ensures DupCount(gs) == |Filter(IsDuplicate, gs)|
  {
    if gs != [] {
      var init := gs[..|gs| - 1];
      DupCountFilter(init);
      assert gs == init + [gs[|gs| - 1]];
      FilterAppend(IsDuplicate, init, gs[|gs| - 1]);
    }
  }

  /** The waste is never negative: group sizes are unsigned. */
  lemma {:induction false} WasteNonNegative(gs: seq<Group<CNode>>)
    requires forall i :: 0 <= i < |gs| ==> gs[i].size >= 0
    ensures Waste(gs) >= 0
  {
    if gs != [] {
      WasteNonNegative(gs[..|gs| - 1]);
    }
  }
}
