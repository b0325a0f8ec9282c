/** The flat snapshot of the `core` package revision (core/snapshot.go): the
    files found by a directory walk, with their total size, collected by the
    Walker callback. The walk itself and the hashing are not part of this
    model; only the callback is. */
module CoreSnapshot {
  import opened Base
  import opened FsModel

  /** core.File: a path, an int64 size and a hash (zero until computed). */
  datatype File = File(path: string, size: int, hash: Hash)

  /** core.Snapshot: the recorded files, their total size (int64) and the
      walk root. */
  datatype Snapshot = Snapshot(files: seq<File>, tsize: int, root: string)

  /** What the callback tells the walk: go on, or do not enter this
      directory (filepath.SkipDir). */
  datatype Verdict = Continue | SkipDir

  /** A hidden entry: a name starting with a dot, other than "." itself. */
  predicate Hidden(name: string)
  {
    |name| > 0 && name[0] == '.' && name != "."
  }

  /** An entry the callback records: not hidden, a regular file, non-empty. */
  predicate Recorded(info: FileInfo)
  {
    !Hidden(info.name) && info.kind == Regular && info.size != 0
  }

  /** Snapshot.Walker's callback for one entry. `info` is None when the walk
      reports an error for that path: the error is logged and the walk goes
      on. A hidden directory is not entered; a hidden file, a directory, a
      non-regular file and an empty file are passed over; anything else is
      appended and its size added to the total. */
  function Walker(sn: Snapshot, path: string, info: Option<FileInfo>): (r: (Snapshot, Verdict))
    ensures r.1 == SkipDir <==> info.Some? && Hidden(info.value.name) && info.value.kind == Dir
    ensures info.Some? && Recorded(info.value) ==>
      r.0 == sn.(files := sn.files + [File(path, info.value.size, ZeroHash())],
                 tsize := WrapI64(sn.tsize + info.value.size))
    ensures !(info.Some? && Recorded(info.value)) ==> r.0 == sn
  {
    match info
    case None => (sn, Continue)
    case Some(fi) =>
      if |fi.name| > 0 && fi.name[0] == '.' && fi.name != "." then
        (sn, if fi.kind == Dir then SkipDir else Continue)
      else if fi.kind == Dir then (sn, Continue)
      else if fi.kind != Regular then (sn, Continue)
      else if fi.size == 0 then (sn, Continue)
      else (sn.(files := sn.files + [File(path, fi.size, ZeroHash())], tsize := WrapI64(sn.tsize + fi.size)), Continue)
  }

  /** The exact sum of the file sizes. */
  function SumSizes(files: seq<File>): int
  {
    if files == [] then 0 else SumSizes(files[..|files| - 1]) + files[|files| - 1].size
  }

  /** The snapshot's total is the int64 sum of its files' sizes. */
  predicate TotalKept(sn: Snapshot)
  {
    sn.tsize == WrapI64(SumSizes(sn.files))
  }

  /** Walker keeps the total equal to the int64 sum of the recorded sizes. */
  lemma WalkerKeepsTotal(sn: Snapshot, path: string, info: Option<FileInfo>)
    requires TotalKept(sn)
    ensures TotalKept(Walker(sn, path, info).0)
  {
    if info.Some? && Recorded(info.value) {
      var files := sn.files + [File(path, info.value.size, ZeroHash())];
      assert files[..|files| - 1] == sn.files;
      WrapAdd(SumSizes(sn.files), info.value.size);
    }
  }

  /** A walk's visits, each a path with its lstat result or an error. */
  datatype Visit = Visit(path: string, info: Option<FileInfo>)

  /** The callback applied to every visit in turn. */
  function Collect(sn: Snapshot, visits: seq<Visit>): Snapshot
    decreases |visits|
  {
    if visits == [] then sn
    else
      var v := visits[|visits| - 1];
      Walker(Collect(sn, visits[..|visits| - 1]), v.path, v.info).0
  }

  /** The visits Walker records, as files. */
  function RecordedFiles(visits: seq<Visit>): seq<File>
    decreases |visits|
  {
    if visits == [] then []
    else
      var v := visits[|visits| - 1];
      RecordedFiles(visits[..|visits| - 1]) +
        (if v.info.Some? && Recorded(v.info.value) then [File(v.path, v.info.value.size, ZeroHash())] else [])
  }

  /** Starting from an empty snapshot, the callbacks leave exactly the
      recorded visits, in visiting order, with their int64 total. */
  lemma {:induction false} CollectRecords(root: string, visits: seq<Visit>)
    ensures Collect(Snapshot([], 0, root), visits).files == RecordedFiles(visits)
    ensures TotalKept(Collect(Snapshot([], 0, root), visits))
    ensures Collect(Snapshot([], 0, root), visits).root == root
    decreases |visits|
  {
    if visits != [] {
      var init := visits[..|visits| - 1];
      var v := visits[|visits| - 1];
      CollectRecords(root, init);
      WalkerKeepsTotal(Collect(Snapshot([], 0, root), init), v.path, v.info);
    }
  }
}
