/** The file system as the walkers see it: a directory listing per path
    (readDirNames) and an lstat result per path. A missing key is the
    corresponding call failing. */
module FsModel {
  import opened Base

  /** What lstat reports: the entry's base name, its kind and its size (int64). */
  datatype FileInfo = FileInfo(name: string, kind: Kind, size: int)

  datatype FS = FS(listing: map<string, seq<string>>, stat: map<string, FileInfo>)

  function ReadDirNames(fs: FS, dir: string): (r: Option<seq<string>>)
    ensures r.Some? <==> dir in fs.listing
  {
    if dir in fs.listing then Some(fs.listing[dir]) else None
  }

  function Lstat(fs: FS, path: string): (r: Option<FileInfo>)
    ensures r.Some? <==> path in fs.stat
  {
    if path in fs.stat then Some(fs.stat[path]) else None
  }

  /** filepath.IsAbs on a Unix system. */
  predicate IsAbs(path: string)
  {
    |path| > 0 && path[0] == '/'
  }

  /** Directory listings never hold an empty name (readdirnames never yields one). */
  predicate ValidFS(fs: FS)
  {
    forall d, i :: d in fs.listing && 0 <= i < |fs.listing[d]| ==> fs.listing[d][i] != ""
  }

  /** How many listable directories have a path at least `n` characters long. */
  ghost function Longer(fs: FS, n: nat): nat
  {
    |set k | k in fs.listing && |k| >= n|
  }

  lemma LongerShrinks(fs: FS, p: string, c: string)
    requires p in fs.listing
    requires |c| > |p|
    ensures Longer(fs, |c|) < Longer(fs, |p|)
  {
    var a := set k | k in fs.listing && |k| >= |c|;
    var b := set k | k in fs.listing && |k| >= |p|;
    assert a <= b;
    assert p in b - a;
    assert b == a + (b - a);
    assert a * (b - a) == {};
    assert |b - a| >= 1;
  }

  /** The number of nodes a breadth-first walk can still produce below `p`,
      `p` included: the termination measure of every walker. */
  ghost function Pot(fs: FS, p: string): (r: nat)
    requires ValidFS(fs)
    ensures r >= 1
    decreases Longer(fs, |p|), 1
  {
    1 + (if p in fs.listing then PotSum(fs, p, fs.listing[p]) else 0)
  }

  ghost function PotSum(fs: FS, p: string, names: seq<string>): nat
    requires ValidFS(fs)
    requires p in fs.listing
    requires forall i :: 0 <= i < |names| ==> names[i] != ""
    decreases Longer(fs, |p|), 0, |names|
  {
    if names == [] then 0
    else
      JoinGrows(p, names[0]);
      LongerShrinks(fs, p, Join(p, names[0]));
      Pot(fs, Join(p, names[0])) + PotSum(fs, p, names[1..])
  }
}
