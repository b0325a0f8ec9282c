/** Duplicate detection over a flat snapshot (core/match.go): group the
    snapshot's files by hash, panicking on a same-hash, different-size pair,
    and report groups or matches against another grouping. */
module CoreMatch {
  import opened Base
  import opened Grouping
  import opened CoreSnapshot

  /** Files are grouped by hash and size; none is skipped. */
  function FileView(): View<File>
  {
    View((f: File) => f.hash, (f: File) => f.size, (f: File) => false)
  }

  /** Snapshot.Group: the files grouped by hash in snapshot order, with a
      panic on the first file whose hash is known under another size. It
      panics exactly when two files share a hash but not a size; when it
      completes, each hash of a file keys the group of all files with that
      hash, in snapshot order, under the size of the first. */
  function GroupFiles(sn: Snapshot): (r: Outcome<HashGroup<File>>)
    ensures r.Aborted? <==> Collides(sn.files, FileView())
    ensures r.Aborted? ==> r.abort == Panic(Collision)
    ensures r.Done? ==> Grouped(r.value, sn.files, FileView(), Panics)
  {
    FoldAborts(sn.files, FileView(), Panics);
    var g := Fold(map[], sn.files, FileView(), Panics);
    if g.Done? then FoldGrouped(sn.files, FileView(), Panics); g else g
  }

  /** HashGroup.Dedup: the groups it prints, those with more than one file,
      in the map's iteration order; nothing else is printed. */
  function Dedup(hg: HashGroup<File>, order: seq<Hash>): (r: seq<Group<File>>)
    requires Enumerates(order, hg.Keys)
    ensures forall h :: h in hg ==> (hg[h] in r <==> |hg[h].members| > 1)
    ensures forall i :: 0 <= i < |r| ==> |r[i].members| > 1 && r[i] in hg.Values
  {
    Duplicates(hg, order)
  }

  /** Snapshot.DedupWith: for each file, in order, whose hash is a key of
      `hb`, the pair it prints: the file and the first member of the matching
      group. A size mismatch panics; so does an empty group, whose first
      member does not exist. Each printed pair is a file of `files` and the
      first member of the group of its hash, which has the file's size. */
  function DedupWith(files: seq<File>, hb: HashGroup<File>): (r: Outcome<seq<(File, File)>>)
    ensures r.Aborted? ==> r.abort == Panic(Collision) || r.abort == Panic(IndexOutOfRange)
    ensures r.Done? ==> forall k :: 0 <= k < |r.value| ==>
      && r.value[k].0 in files && r.value[k].0.hash in hb
      && hb[r.value[k].0.hash].size == r.value[k].0.size
      && hb[r.value[k].0.hash].members != [] && r.value[k].1 == hb[r.value[k].0.hash].members[0]
  {
    if files == [] then Done([])
    else
      var f := files[0];
      if f.hash !in hb then DedupWith(files[1..], hb)
      else if hb[f.hash].size != f.size then Aborted(Panic(Collision))
      else if hb[f.hash].members == [] then Aborted(Panic(IndexOutOfRange))
      else match DedupWith(files[1..], hb)
        case Aborted(a) => Aborted(a)
        case Done(rest) => Done([(f, hb[f.hash].members[0])] + rest)
  }

  /** A file whose hash is known to `hb` under another size, or whose group is
      empty. */
  predicate Mismatch(f: File, hb: HashGroup<File>)
  {
    f.hash in hb && (hb[f.hash].size != f.size || hb[f.hash].members == [])
  }

  /** DedupWith panics exactly when some file mismatches; the reason is the
      one of the first such file. */
  lemma {:induction false} DedupWithAborts(files: seq<File>, hb: HashGroup<File>)
    ensures DedupWith(files, hb).Aborted? <==> exists i :: 0 <= i < |files| && Mismatch(files[i], hb)
  {
    if files != [] {
      DedupWithAborts(files[1..], hb);
      assert forall i :: 1 <= i < |files| ==> files[i] == files[1..][i - 1];
      if exists i :: 0 <= i < |files| && Mismatch(files[i], hb) {
        var i :| 0 <= i < |files| && Mismatch(files[i], hb);
        if i > 0 {
          assert Mismatch(files[1..][i - 1], hb);
        }
      }
    }
  }

  /** Against the grouping of a snapshot, DedupWith never reads past a group:
      it panics only on a size mismatch, and every printed pair is a file of
      this snapshot with a file of the other one sharing its hash and size;
      every file whose hash is known is printed, in order. */
  lemma {:induction false} DedupWithGroups(files: seq<File>, other: Snapshot, hb: HashGroup<File>)
    requires GroupFiles(other) == Done(hb)
    ensures DedupWith(files, hb).Aborted? ==> DedupWith(files, hb).abort == Panic(Collision)
    ensures DedupWith(files, hb).Done? ==>
      var r := DedupWith(files, hb).value;
      && (forall k :: 0 <= k < |r| ==>
            r[k].0 in files && r[k].1 in other.files && r[k].0.hash == r[k].1.hash && r[k].0.size == r[k].1.size)
      && |r| == |Known(files, hb)| && (forall k :: 0 <= k < |r| ==> r[k].0 == Known(files, hb)[k])
  {
    DedupWithGroupsFrom(files, other, hb);
    DedupWithKnown(files, hb);
  }

  /** The files whose hash is a key of `hb`, in order. */
  function Known(files: seq<File>, hb: HashGroup<File>): seq<File>
  {
    if files == [] then []
    else (if files[0].hash in hb then [files[0]] else []) + Known(files[1..], hb)
  }

  lemma {:induction false} DedupWithGroupsFrom(files: seq<File>, other: Snapshot, hb: HashGroup<File>)
    requires Grouped(hb, other.files, FileView(), Panics)
    ensures DedupWith(files, hb).Aborted? ==> DedupWith(files, hb).abort == Panic(Collision)
    ensures DedupWith(files, hb).Done? ==>
      var r := DedupWith(files, hb).value;
      && (forall k :: 0 <= k < |r| ==>
            r[k].0 in files && r[k].1 in other.files && r[k].0.hash == r[k].1.hash && r[k].0.size == r[k].1.size)
    decreases |files|
  {
    if files != [] {
      var f := files[0];
      var rest := files[1..];
      DedupWithGroupsFrom(rest, other, hb);
      assert files == [f] + rest;
      if f.hash in hb {
        assert GroupedAt(hb, other.files, FileView(), Panics, f.hash);
        var m := Kept(other.files, FileView(), f.hash)[0];
        KeptMembers(other.files, FileView(), f.hash);
        assert m in Kept(other.files, FileView(), f.hash);
      }
      if DedupWith(files, hb).Done? {
        var r := DedupWith(files, hb).value;
        forall k | 0 <= k < |r|
          ensures r[k].0 in files && r[k].1 in other.files && r[k].0.hash == r[k].1.hash && r[k].0.size == r[k].1.size
        {
          if f.hash in hb && k > 0 {
            assert r[k] == DedupWith(rest, hb).value[k - 1];
          } else if f.hash !in hb {
            assert r[k] == DedupWith(rest, hb).value[k];
          }
        }
      }
    }
  }

  /** When DedupWith completes, its pairs start with the known files, in
      order, one pair each. */
  lemma {:induction false} DedupWithKnown(files: seq<File>, hb: HashGroup<File>)
    ensures DedupWith(files, hb).Done? ==>
      var r := DedupWith(files, hb).value;
      |r| == |Known(files, hb)| && forall k :: 0 <= k < |r| ==> r[k].0 == Known(files, hb)[k]
    decreases |files|
  {
    if files != [] && DedupWith(files, hb).Done? {
      var f, rest := files[0], files[1..];
      DedupWithKnown(rest, hb);
      if f.hash !in hb {
        assert Known(files, hb) == Known(rest, hb);
      } else {
        var tail := DedupWith(rest, hb).value;
        var r := [(f, hb[f.hash].members[0])] + tail;
        assert DedupWith(files, hb).value == r;
        assert Known(files, hb) == [f] + Known(rest, hb);
        forall k | 0 <= k < |r| ensures r[k].0 == Known(files, hb)[k] {
          if k > 0 {
            assert r[k] == tail[k - 1];
          }
        }
      }
    }
  }

}
