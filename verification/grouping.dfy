/** The grouping fold the three older revisions share (core/match.go,
    core/group.go, core/dedup.go): walk the entries in order, skip some, and
    gather the rest by hash into groups that remember the size of the first
    entry. They differ only in what happens when an entry has a known hash but
    a different size: a panic, a log.Fatal exit, or a logged skip. */
module Grouping {
  import opened Base

  /** A group of entries sharing a hash, with the size of the first one. */
  datatype Group<T> = Group(members: seq<T>, size: int)

  /** What a same-hash, different-size entry does. */
  datatype Policy = Panics | Exits | Drops

  /** How the fold sees an entry: its hash, its size, and whether it is
      skipped altogether (directories, in the node-based variants). */
  datatype View<!T> = View(hashOf: T -> Hash, sizeOf: T -> int, skip: T -> bool)

  type HashGroup<T> = map<Hash, Group<T>>

  /** One iteration of the loop body. */
  function Step<T>(hg: HashGroup<T>, x: T, v: View<T>, p: Policy): (r: Outcome<HashGroup<T>>)
    ensures r.Aborted? <==>
      p != Drops && !v.skip(x) && v.hashOf(x) in hg && hg[v.hashOf(x)].size != v.sizeOf(x)
    ensures r.Aborted? ==> r.abort == (if p == Panics then Panic(Collision) else Fatal(Collision))
  {
    if v.skip(x) then Done(hg)
    else
      var h := v.hashOf(x);
      if h !in hg then Done(hg[h := Group([x], v.sizeOf(x))])
      else if hg[h].size == v.sizeOf(x) then Done(hg[h := hg[h].(members := hg[h].members + [x])])
      else match p
        case Panics => Aborted(Panic(Collision))
        case Exits => Aborted(Fatal(Collision))
        case Drops => Done(hg)
  }

  /** The whole loop over `xs`, from the map `hg`. */
  function Fold<T>(hg: HashGroup<T>, xs: seq<T>, v: View<T>, p: Policy): Outcome<HashGroup<T>>
    decreases |xs|
  {
    if xs == [] then Done(hg)
    else match Fold(hg, xs[..|xs| - 1], v, p)
      case Aborted(a) => Aborted(a)
      case Done(g) => Step(g, xs[|xs| - 1], v, p)
  }

  /** The fold seen from the front: the first entry's step, then the rest. */
  lemma {:induction false} FoldCons<T>(hg: HashGroup<T>, x: T, xs: seq<T>, v: View<T>, p: Policy)
    ensures Fold(hg, [x] + xs, v, p) ==
      match Step(hg, x, v, p)
      case Aborted(a) => Aborted(a)
      case Done(g) => Fold(g, xs, v, p)
    decreases |xs|
  {
    if xs == [] {
      assert [x] + xs == [x];
      assert [x][..0] == [];
    } else {
      var init := xs[..|xs| - 1];
      FoldCons(hg, x, init, v, p);
      assert ([x] + xs)[..|xs|] == [x] + init;
    }
  }

  /** The entries that belong to the group of `h`: not skipped, with hash
      `h`, in order. */
  function Kept<T>(xs: seq<T>, v: View<T>, h: Hash): seq<T>
    decreases |xs|
  {
    if xs == [] then []
    else
      var x := xs[|xs| - 1];
      Kept(xs[..|xs| - 1], v, h) + (if !v.skip(x) && v.hashOf(x) == h then [x] else [])
  }

  /** The entries of the group of `h` that also have size `size`. */
  function KeptSized<T>(xs: seq<T>, v: View<T>, h: Hash, size: int): seq<T>
    decreases |xs|
  {
    if xs == [] then []
    else
      var x := xs[|xs| - 1];
      KeptSized(xs[..|xs| - 1], v, h, size) + (if !v.skip(x) && v.hashOf(x) == h && v.sizeOf(x) == size then [x] else [])
  }

  lemma KeptAppend<T>(xs: seq<T>, x: T, v: View<T>, h: Hash, size: int)
    ensures Kept(xs + [x], v, h) == Kept(xs, v, h) + (if !v.skip(x) && v.hashOf(x) == h then [x] else [])
    ensures KeptSized(xs + [x], v, h, size) ==
      KeptSized(xs, v, h, size) + (if !v.skip(x) && v.hashOf(x) == h && v.sizeOf(x) == size then [x] else [])
  {
    assert (xs + [x])[..|xs|] == xs;
  }

  /** Kept holds exactly the entries of the group, drawn from `xs`. */
  lemma {:induction false} KeptMembers<T>(xs: seq<T>, v: View<T>, h: Hash)
    ensures forall y :: y in Kept(xs, v, h) ==> y in xs && !v.skip(y) && v.hashOf(y) == h
    ensures forall i :: 0 <= i < |xs| && !v.skip(xs[i]) && v.hashOf(xs[i]) == h ==> xs[i] in Kept(xs, v, h)
    ensures Kept(xs, v, h) == [] ==> forall size :: KeptSized(xs, v, h, size) == []
    decreases |xs|
  {
    if xs != [] {
      var init := xs[..|xs| - 1];
      KeptMembers(init, v, h);
      assert forall i :: 0 <= i < |init| ==> xs[i] == init[i];
      assert forall y :: y in init ==> y in xs;
    }
  }

  /** KeptSized holds entries of the group with the given size only. */
  lemma {:induction false} KeptSizedMembers<T>(xs: seq<T>, v: View<T>, h: Hash, size: int)
    ensures forall y :: y in KeptSized(xs, v, h, size) ==>
      y in xs && !v.skip(y) && v.hashOf(y) == h && v.sizeOf(y) == size
    decreases |xs|
  {
    if xs != [] {
      var init := xs[..|xs| - 1];
      KeptSizedMembers(init, v, h, size);
      assert forall y :: y in init ==> y in xs;
    }
  }

  /** An entry of the group of `h` is among those of its own size. */
  lemma {:induction false} KeptSizedHas<T>(xs: seq<T>, v: View<T>, h: Hash, y: T)
    requires y in xs && !v.skip(y) && v.hashOf(y) == h
    ensures y in KeptSized(xs, v, h, v.sizeOf(y))
    decreases |xs|
  {
    var init := xs[..|xs| - 1];
    if y in init {
      KeptSizedHas(init, v, h, y);
    } else {
      assert y == xs[|xs| - 1];
    }
  }

  /** Two entries that are not skipped share a hash but not a size. */
  predicate Collides<T>(xs: seq<T>, v: View<T>)
  {
    exists i, j :: 0 <= i < j < |xs| && !v.skip(xs[i]) && !v.skip(xs[j]) &&
      v.hashOf(xs[i]) == v.hashOf(xs[j]) && v.sizeOf(xs[i]) != v.sizeOf(xs[j])
  }

  /** The reference meaning of a grouping of `xs`: a key for every hash of a
      non-skipped entry and no other; each group's size is the size of the
      first such entry; each group holds, in order, the entries of its hash
      (under Drops: only those of the group's size). */
  ghost predicate Grouped<T>(hg: HashGroup<T>, xs: seq<T>, v: View<T>, p: Policy)
  {
    forall h :: GroupedAt(hg, xs, v, p, h)
  }

  /** The part of Grouped about one hash. */
  ghost predicate GroupedAt<T>(hg: HashGroup<T>, xs: seq<T>, v: View<T>, p: Policy, h: Hash)
  {
    && (h in hg <==> Kept(xs, v, h) != [])
    && (h in hg ==>
          && hg[h].size == v.sizeOf(Kept(xs, v, h)[0])
          && hg[h].members == (if p == Drops then KeptSized(xs, v, h, hg[h].size) else Kept(xs, v, h)))
  }

  /** One more entry, grouped. */
  lemma StepGrouped<T>(g: HashGroup<T>, xs: seq<T>, x: T, v: View<T>, p: Policy)
    requires Grouped(g, xs, v, p)
    requires Step(g, x, v, p).Done?
    ensures Grouped(Step(g, x, v, p).value, xs + [x], v, p)
  {
    forall h ensures GroupedAt(Step(g, x, v, p).value, xs + [x], v, p, h) {
      StepGroupedAt(g, xs, x, v, p, h);
    }
  }

  lemma StepGroupedAt<T>(g: HashGroup<T>, xs: seq<T>, x: T, v: View<T>, p: Policy, h: Hash)
    requires GroupedAt(g, xs, v, p, h)
    requires Step(g, x, v, p).Done?
    ensures GroupedAt(Step(g, x, v, p).value, xs + [x], v, p, h)
  {
    var g' := Step(g, x, v, p).value;
    if h in g' {
      KeptAppend(xs, x, v, h, g'[h].size);
      if h !in g {
        KeptMembers(xs, v, h);
      }
    } else {
      KeptAppend(xs, x, v, h, 0);
    }
  }

  /** From an empty map, a completed fold is a grouping of its entries. */
  lemma {:induction false} FoldGrouped<T>(xs: seq<T>, v: View<T>, p: Policy)
    requires Fold(map[], xs, v, p).Done?
    ensures Grouped(Fold(map[], xs, v, p).value, xs, v, p)
    decreases |xs|
  {
    if xs != [] {
      var init := xs[..|xs| - 1];
      FoldGrouped(init, v, p);
      assert init + [xs[|xs| - 1]] == xs;
      StepGrouped(Fold(map[], init, v, p).value, init, xs[|xs| - 1], v, p);
    }
  }

  /** Dropping collisions never stops the fold. */
  lemma {:induction false} DropsNeverAborts<T>(hg: HashGroup<T>, xs: seq<T>, v: View<T>)
    ensures Fold(hg, xs, v, Drops).Done?
    decreases |xs|
  {
    if xs != [] {
      DropsNeverAborts(hg, xs[..|xs| - 1], v);
    }
  }

  /** An earlier entry of the group of `h` whose size is not `size`. */
  predicate SizeClash<T>(xs: seq<T>, v: View<T>, h: Hash, size: int)
  {
    exists i :: 0 <= i < |xs| && !v.skip(xs[i]) && v.hashOf(xs[i]) == h && v.sizeOf(xs[i]) != size
  }

  /** A collision among `xs + [x]` is one among `xs` or one of `x` with an
      earlier entry. */
  lemma CollidesAppend<T>(xs: seq<T>, x: T, v: View<T>)
    ensures Collides(xs + [x], v) <==>
      Collides(xs, v) || (!v.skip(x) && SizeClash(xs, v, v.hashOf(x), v.sizeOf(x)))
  {
    var ys := xs + [x];
    assert forall i :: 0 <= i < |xs| ==> ys[i] == xs[i];
    if Collides(ys, v) && !Collides(xs, v) {
      var i, j :| 0 <= i < j < |ys| && !v.skip(ys[i]) && !v.skip(ys[j]) &&
        v.hashOf(ys[i]) == v.hashOf(ys[j]) && v.sizeOf(ys[i]) != v.sizeOf(ys[j]);
      assert j == |xs|;
    }
    if !v.skip(x) && SizeClash(xs, v, v.hashOf(x), v.sizeOf(x)) {
      var i :| 0 <= i < |xs| && !v.skip(xs[i]) && v.hashOf(xs[i]) == v.hashOf(x) && v.sizeOf(xs[i]) != v.sizeOf(x);
      assert ys[|xs|] == x;
    }
    if Collides(xs, v) {
      var i, j :| 0 <= i < j < |xs| && !v.skip(xs[i]) && !v.skip(xs[j]) &&
        v.hashOf(xs[i]) == v.hashOf(xs[j]) && v.sizeOf(xs[i]) != v.sizeOf(xs[j]);
      assert ys[i] == xs[i] && ys[j] == xs[j];
    }
  }

  /** In a grouping without collisions, an entry clashes with the earlier
      ones of its hash exactly when its hash has a group of another size. */
  lemma ClashIsGroupSize<T>(g: HashGroup<T>, xs: seq<T>, v: View<T>, p: Policy, x: T)
    requires Grouped(g, xs, v, p) && !Collides(xs, v) && !v.skip(x)
    ensures SizeClash(xs, v, v.hashOf(x), v.sizeOf(x)) <==>
      v.hashOf(x) in g && g[v.hashOf(x)].size != v.sizeOf(x)
  {
    var h := v.hashOf(x);
    assert GroupedAt(g, xs, v, p, h);
    KeptMembers(xs, v, h);
    if SizeClash(xs, v, h, v.sizeOf(x)) {
      var i :| 0 <= i < |xs| && !v.skip(xs[i]) && v.hashOf(xs[i]) == h && v.sizeOf(xs[i]) != v.sizeOf(x);
      assert xs[i] in Kept(xs, v, h);
      var y := Kept(xs, v, h)[0];
      assert y in Kept(xs, v, h);
      var k :| 0 <= k < |xs| && xs[k] == y;
      if i < k {
        assert !(!v.skip(xs[i]) && !v.skip(xs[k]) && v.hashOf(xs[i]) == v.hashOf(xs[k]) && v.sizeOf(xs[i]) != v.sizeOf(xs[k]));
      } else if i > k {
        assert !(!v.skip(xs[k]) && !v.skip(xs[i]) && v.hashOf(xs[k]) == v.hashOf(xs[i]) && v.sizeOf(xs[k]) != v.sizeOf(xs[i]));
      }
    }
    if h in g && g[h].size != v.sizeOf(x) {
      var y := Kept(xs, v, h)[0];
      assert y in Kept(xs, v, h);
      var k :| 0 <= k < |xs| && xs[k] == y;
    }
  }

  /** From an empty map, the panicking and exiting folds stop exactly when two
      entries share a hash but not a size; the dropping fold never stops. */
  lemma {:induction false} FoldAborts<T>(xs: seq<T>, v: View<T>, p: Policy)
    ensures Fold(map[], xs, v, p).Aborted? <==> p != Drops && Collides(xs, v)
    ensures Fold(map[], xs, v, p).Aborted? ==>
      Fold(map[], xs, v, p).abort == (if p == Panics then Panic(Collision) else Fatal(Collision))
    decreases |xs|
  {
    if xs != [] {
      var init := xs[..|xs| - 1];
      var x := xs[|xs| - 1];
      assert init + [x] == xs;
      FoldAborts(init, v, p);
      CollidesAppend(init, x, v);
      if Fold(map[], init, v, p).Done? && p != Drops && !Collides(init, v) && !v.skip(x) {
        FoldGrouped(init, v, p);
        ClashIsGroupSize(Fold(map[], init, v, p).value, init, v, p, x);
      }
    }
  }

  /** The groups with more than one member, in the map's iteration order:
      what HashGroup.Dedup reports. */
  function Duplicates<T>(hg: HashGroup<T>, order: seq<Hash>): (r: seq<Group<T>>)
    requires Enumerates(order, hg.Keys)
    ensures forall i :: 0 <= i < |r| ==> |r[i].members| > 1 && exists h :: h in hg && hg[h] == r[i]
    ensures forall h :: h in hg && |hg[h].members| > 1 ==> hg[h] in r
    ensures |r| <= |hg|
  {
    OrderSize(order, hg.Keys);
    ValuesCover(hg, order);
    Filter(IsDuplicate, Values(hg, order))
  }

  /** A group that holds more than one entry. */
  predicate IsDuplicate<T>(g: Group<T>)
  {
    |g.members| > 1
  }
}
