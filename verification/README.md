# hashsnap, modelled in Dafny

hashsnap takes snapshots of a directory tree. A snapshot is a stream of
nodes: each node has an ID, its parent's ID, a name, a size and a SHA-1 of
the file's content. Two snapshots can then be compared, either to find
files in one that already exist in another ("trim") or to find
duplicates within one ("dedup"). The repository holds several revisions
of this design side by side. They are modelled separately here, each as
written, and not merged into one:

| module | file | what it covers |
|---|---|---|
| `Base` | — | hashes (20 bytes), nonces, file kinds, panics and `log.Fatal` as `Abort` values, `Result`/`Option`, int64/uint64 wrap-around, `filepath.Join`, Go map iteration orders, `%d` |
| `FsModel` | — | the file system the walkers read: a listing per directory and an lstat result per path |
| `SnapTree` | tree.go | the snapshot `Tree`: an arena of nodes by ID, a parent-to-children index, the header and the owning-tree identity (tree index plus nonce) |
| `TreeReader` | tree.go | `ReadTree` and `DecodeNodes` over an abstract gob stream |
| `HashGroups` | tree.go | `HashGroup.Add`/`Intersect`, `Trim`, `PruneSingleTreeGroups`, `Select` |
| `TrimScenarios` | internal/snapshot_test.go | the trim scenarios of the package tests, over trees of the fixture's shape |
| `CoreCodec` | core/codec.go | `NodeDecoder.Decode` with its ID map and parent check |
| `CoreTree` | core/tree.go | the `core` tree, `ReadIterator`, `RelPath`, `IsOK`, `TreeIterator` |
| `Iterators` | iterator.go | `ReadAll`, `Each` and the `DecoderIterator` state machine |
| `CoreNode` | core/node.go | `Node.Path`, `MakeNode`, `MakeRootNode` |
| `Grouping` | core/match.go, core/group.go, core/dedup.go | the grouping fold all three share, with its three collision policies: panic, fatal exit, log and drop |
| `CoreMatch` | core/match.go | `Snapshot.Group`, `DedupWith`, `HashGroup.Dedup` |
| `CoreGroup` | core/group.go | `HashGroup.Load`, the `ByPath` sort, the counters of `HashGroup.Dedup` |
| `CoreDedup` | core/dedup.go | the grouping loop of `Dedup` and `HashGroup.Dedup` |
| `CoreSnapshot` | core/snapshot.go | the `Snapshot.Walker` callback |
| `CoreWalk` | core/cmd_create.go, core/walker_source.go | the breadth-first walk with ID allocation that both `core` walkers run |
| `ChildNodes` | core/cmd_create.go, core/walker_source.go | the loop over one directory's names |
| `Exclusions` | core/exclusion.go, core/cmd_create.go | `exclusions.Has` and the list `Create` passes |
| `CreateWalker` | core/cmd_create.go | `walker` |
| `WalkerSource` | core/walker_source.go | `DefaultSkipper`, `MakeNameSkipper`, `WalkFS` |
| `NcoreWalk` | ncore/walk.go | the `ncore` `walker` |
| `Units` | core/units.go, internal/units.go | the unit selection of both `ByteSize.String` methods |

Other modelling choices:

- Go maps are Dafny maps. Wherever the source ranges over a map, the
  iteration order is a parameter that must enumerate the keys. Nothing is
  proved that depends on one particular order.
- A panic or a `log.Fatal` is an `Abort` value naming the reason. An error
  return is an `Err` or a `Some(error)`.
- `lstat` and `readDirNames` are lookups in `FsModel.FS`. A missing key is
  the error.
- A gob stream is a sequence of records, each a node or an error. `io.EOF`
  is one particular error.
- Go's nil pointer dereferences are panics named `NilDereference`.
- Where the code has a bug, the model has a `Revision` parameter. `AsWritten`
  follows the source line by line; `Intended` is the evident fix. Both are
  proved about (see "Findings").

## Model

| member | source | states |
|---|---|---|
| SnapTree.NewTree | tree.go:38-43 | a new tree has no nodes, no child index and no header, and is indexed |
| SnapTree.Add | tree.go:88-98 | panics exactly when the ID is taken; otherwise stores the node under its ID with the tree as its owner, appends the ID to its parent's child list, and changes no other node or child list |
| SnapTree.AddKeepsIndexed | tree.go:88-98 | adding a node with a fresh ID keeps the arena and the child index in agreement |
| SnapTree.Root | tree.go:100-108 | the node with ID 0, else the node with ID 1, else a panic |
| SnapTree.ChildrenOf | tree.go:120-130 | panics on a nil node; otherwise returns exactly the stored nodes whose parent ID is the node's ID |
| SnapTree.ChildrenOfMatchesIndex | tree.go:88-98 | the scan of ChildrenOf and the child index Add keeps name the same IDs (with tree.go:120-130) |
| SnapTree.RelPath | tree.go:132-145 | panics on a node of another tree, or when a parent on the chain is missing; a node with ID 0 or below resolves to "" |
| SnapTree.ClimbAccumulates | tree.go:137-143 | the path built so far is only ever extended by joining names in front of it |
| SnapTree.RelPathTerminates | tree.go:137-143 | when every parent ID is below its child's ID, the loop ends |
| SnapTree.RelPathOfChild | tree.go:132-145 | a node's relative path is its parent's relative path joined with the node's name |
| SnapTree.RootOneDoesNotResolve | tree.go:137-142 | a root stored under ID 1, with parent 0 and no node 0, makes RelPath panic on the missing parent |
| SnapTree.ByteSize | tree.go:245-251 | an empty list has size 0; the result is an int64 |
| SnapTree.ByteSizeIsTotal | tree.go:245-251 | when all nodes share one size, ByteSize is the int64 sum of their sizes |
| SnapTree.SplitNodes | tree.go:255-264 | the first list holds only nodes owned by the tree and the second only the others, together a permutation of the input; each list reads the input at increasing positions, the owned nodes in input order and the others likewise |
| Base.Positions | tree.go:255-264 | the positions of the input whose element passes the test, increasing, and every such position |
| Base.FilterAtPositions | tree.go:255-264 | the filtered list is the input read at the positions of the passing elements, so it keeps their order |
| TreeReader.DecodeNodes | tree.go:70-86 | the nodes handed to the callback are the leading node records, in order; a clean end is io.EOF or the end of the stream; otherwise the first decode error or callback error is returned and nothing after it is read |
| TreeReader.AddNodes | tree.go:62-65 | the decode loop with Add as its callback: its only panic is Add's on a taken ID, and it keeps the tree's identity and header |
| TreeReader.ReadTree | tree.go:46-68 | a header error returns the empty tree with that error; it panics exactly when the header version is not 1; otherwise the tree keeps the header |
| TreeReader.AddNodesSpec | tree.go:62-65 | the Add callback panics exactly when a decoded ID repeats or is already in the tree; otherwise the tree stays indexed, holds the old IDs plus the decoded ones, keeps every old node as it was, stores each decoded node under its ID with the tree as owner, and the error is DecodeNodes's (with tree.go:88-98) |
| TreeReader.AddNodesValues | tree.go:88-98 | a completed decode keeps every old node and stores each decoded node under its ID, owned by the tree (with tree.go:62-65) |
| TreeReader.ReadTreeSpec | tree.go:46-68 | on a version-1 header ReadTree panics exactly when two decoded nodes share an ID; otherwise it returns an indexed tree of exactly the decoded nodes, each stored under its ID with the new tree as owner, and DecodeNodes's error |
| HashGroups.Add | tree.go:183-198 | ignores directories; panics exactly when the file's hash has a group whose first member has another size; otherwise appends the file to its hash's group, creating it if needed, and leaves the other groups alone |
| HashGroups.Intersect | tree.go:200-213 | like Add, but a file whose hash has no group is ignored, so the keys never change |
| HashGroups.AddAllGroups | tree.go:151-155 | folding nodes in with Add panics exactly when two files share a hash but not a size; otherwise each group holds the files of its hash in input order (with tree.go:183-198) |
| HashGroups.IntersectAllGroups | tree.go:160-162 | folding nodes in with Intersect keeps the keys and appends each file whose hash is a key; it panics exactly when such a file's size differs from its group's (with tree.go:200-213) |
| HashGroups.Trim | tree.go:151-166 | a reference tree without header or with the tree's own nonce stops it; a completed trim has exactly the hashes of the tree's files as keys, none added by a reference |
| HashGroups.TrimGroups | tree.go:151-166 | the result of Trim has one group per hash of a file of the tree, holding the tree's files with that hash followed by the matching files of each reference tree, all of one size |
| HashGroups.TrimKeys | tree.go:151-166 | the keys of Trim's result are exactly the hashes of the tree's file nodes |
| HashGroups.TrimAborts | tree.go:151-166 | Trim panics exactly when two of the tree's files collide, or a reference tree lacks a header, has the tree's nonce, or holds a file that clashes with one of the tree's; reference trees are never compared with each other |
| HashGroups.SameSizeNeverClashes | tree.go:189-190 | trees whose files all have one size never trip the size check (with tree.go:207-208) |
| HashGroups.SelfTrimPanics | tree.go:157-159 | trimming a tree with itself panics |
| HashGroups.PruneSingleTreeGroups | tree.go:215-229 | deletes exactly the groups with at most one member or whose members all carry one nonce, and keeps every other group, untouched; reading the nonce of a member without tree or header panics |
| HashGroups.SingleTreePrunesToEmpty | tree.go:215-229 | when all members carry one nonce, every group is deleted |
| HashGroups.Select | tree.go:232-241 | returns exactly the group members owned by the tree |
| HashGroups.SelectIsSplitIn | tree.go:232-241 | for one group, Select returns what SplitNodes puts on its in side (with tree.go:255-264) |
| HashGroups.TrimSafety | tree.go:151-166 | after Trim and PruneSingleTreeGroups, every member of a surviving group has a file of equal hash and size in some reference tree (with tree.go:215-229) |
| TrimScenarios.BasicTrim | internal/snapshot_test.go:23-45 | when d2's f2.txt holds "abc", trimming d1 against d2 and selecting d1 gives f1.txt and f1dup.txt and not f2.txt |
| TrimScenarios.TrimWithDuplicate | internal/snapshot_test.go:47-71 | when f2.txt holds "def", trimming succeeds and pruning deletes every group, so nothing is selected |
| TrimScenarios.SelfTrim | internal/snapshot_test.go:73-85 | a new tree with a zero header, trimmed with itself, panics |
| TrimScenarios.FixturesHaveShape | internal/snapshot_test.go:26-38 | the literal fixture trees have the shape the scenarios assume |
| CoreCodec.NewDecoder | core/codec.go:29-35 | a new decoder has an empty ID map |
| CoreCodec.Decode | core/codec.go:37-57 | a gob error is returned unchanged and the map is left alone; a decoded node is stored under its ID first, replacing any earlier node with that ID; IDs 0 and 1 need no parent; any other node is rejected exactly when its parent ID is not in the map, which by then holds the node itself |
| CoreCodec.AsWrittenParentsNotAfter | core/codec.go:37-57 | over a run of Decode calls, every accepted non-root node's parent was decoded earlier, or is the node itself |
| CoreCodec.SelfParentAccepted | core/codec.go:43-53 | a node with ID 2 that names itself as its parent is accepted by a new decoder, although no parent came before it |
| CoreCodec.DecodeChecked | core/codec.go:37-57 | the corrected Decode: the parent is looked up among the nodes decoded before this one |
| CoreCodec.CheckedParentsBefore | core/codec.go:37-57 | with the corrected check, every accepted non-root node's parent was decoded strictly earlier |
| CoreCodec.DecodeAllReadsPrefix | core/codec.go:37-41 | the accepted nodes are the stream's leading node records, in order |
| CoreTree.NewTree | core/tree.go:31-36 | a new tree has empty maps, whatever header is given |
| CoreTree.Add | core/tree.go:68-77 | panics exactly when the ID is taken; otherwise stores the node, appends its ID to its parent's child list, and changes no other child list |
| CoreTree.AddKeepsIndexed | core/tree.go:68-77 | a completed Add keeps the arena and the child index in agreement |
| CoreTree.ReadIterator | core/tree.go:38-45 | its only panic is Add's on a taken ID; a completed read returns the iterator's error and leaves the old IDs plus the yielded ones |
| CoreTree.ReadIteratorAborts | core/tree.go:38-45 | reading an iterator panics exactly when a yielded ID repeats or is already in the tree |
| CoreTree.ReadIteratorValues | core/tree.go:38-45 | a completed read leaves the old nodes alone and stores every yielded node under its ID |
| CoreTree.ReadIteratorIndexed | core/tree.go:38-45 | a completed read keeps the tree indexed |
| CoreTree.RelWalk | core/tree.go:49-56 | a loop that reaches ID 0 returns a path that ends with the path it started from |
| CoreTree.RelPath | core/tree.go:47-58 | the node with ID 0 has the empty path; a non-empty path ends with the node's own name, below a parent that is in the tree |
| CoreTree.NoZeroNeverReached | core/tree.go:49-56 | when every stored node has a positive ID, the loop started from a node with a positive ID never ends by reaching an ID of 0 or below |
| CoreTree.RelPathWithoutZero | core/tree.go:47-58 | so in such a tree, which is what every walker makes, RelPath returns "" for every node, or runs out of its step bound: the loop can only end on a missing parent |
| CoreTree.RelWalkEnds | core/tree.go:49-56 | when every parent ID is below its child's ID, the loop ends |
| CoreTree.RelWalkAppends | core/tree.go:49-56 | the path built so far is only ever extended by joining names in front of it |
| CoreTree.RelPathOfChild | core/tree.go:47-58 | a node's path is its parent's path joined with its name, and "" when its parent's walk meets a missing parent |
| CoreTree.IsOK | core/tree.go:61-66 | never true; the error says whether the two maps differ in size |
| CoreTree.NewTreeIterator | core/tree.go:87-94 | starts before the first node and holds every stored node |
| CoreTree.Next | core/tree.go:111-114 | advances by one and reports true exactly when Node then yields a node |
| CoreTree.Node | core/tree.go:97-102 | panics before the first Next and past the end; otherwise the current node |
| CoreTree.Error | core/tree.go:105-107 | always nil |
| CoreTree.Drain | core/tree.go:97-114 | the Next/Node loop over a tree iterator collects every node after the current one, in order (with core/tree.go:38-45) |
| CoreTree.IteratorIds | core/tree.go:87-94 | the iterator's nodes have distinct IDs, and those IDs are exactly the tree's |
| CoreTree.IteratorRebuildsTree | core/tree.go:87-114 | reading a new iterator over a tree into a new tree completes with no error and rebuilds the same node map, so every node is yielded exactly once (with core/tree.go:38-45) |
| Iterators.Next | iterator.go:66-79 | on io.EOF returns false and changes nothing but the stream; on another error returns false and records it with the current position; on success returns true, makes the node current and counts it |
| Iterators.Node | iterator.go:52-57 | panics until a Next has succeeded; then the node it decoded |
| Iterators.NodeAfterNext | iterator.go:52-57 | a new iterator's Node panics; after a successful Next, Node is the node just decoded (with iterator.go:76-78) |
| Iterators.PosCountsDecodes | iterator.go:76-78 | after k successful Next calls, pos has grown by k and the error is unchanged |
| Iterators.ReadAll | iterator.go:22-30 | returns the nodes DecodeNodes would hand to a callback that never fails, in order, stopping at the first false Next; the iterator has counted them and recorded the decode error, if any |
| Iterators.Each | iterator.go:32-39 | calls the callback on the nodes in order and returns its first error without visiting later nodes; returns nil when Next turns false, even if the iterator recorded an error |
| CoreNode.PathFails | core/node.go:45-54 | Path fails exactly when the parent chain never reaches a node with a root path, and then names the node without a parent at the top of the chain |
| CoreNode.MakeNode | core/node.go:56-75 | panics exactly when the parent's ID is 0; returns an error exactly when lstat fails on the joined path; otherwise the child has the name, the parent's ID and pointer, kind and size from lstat, the joined path, one more level of depth, and ID 0 |
| CoreNode.MakeRootNode | core/node.go:77-92 | a failed lstat is fatal; otherwise the root has parent ID 0, no parent, depth 0, and the path as both its cached path and its root path |
| CoreNode.RootPathCached | core/node.go:77-92 | a root made from a non-empty path knows its path; one made from "" cannot compute it (with core/node.go:45-48) |
| CoreNode.MakeNodeKeepsPath | core/node.go:60-73 | a child's cached path is what Path computes, when its parent's is (with core/node.go:52-53) |
| CoreNode.MakeNodeKeepsDepth | core/node.go:73 | depth counts the node's ancestors, while it fits in a uint64 |
| Grouping.Step | core/match.go:46-56 | one loop iteration stops exactly when the policy is not to drop, the entry is not skipped, and its hash has a group of another size; panic and fatal exit are told apart (with core/group.go:93-107, core/dedup.go:54-69) |
| Grouping.FoldAborts | core/match.go:45-57 | from an empty map, the panicking and exiting folds stop exactly when two entries share a hash but not a size; the dropping fold never stops (with core/group.go:93-107) |
| Grouping.FoldGrouped | core/match.go:45-57 | a completed fold from an empty map has a key for every hash of a kept entry and no other; each group has the size of its hash's first entry and holds that hash's entries in order (when dropping, only those of the group's size) (with core/group.go:93-107, core/dedup.go:49-70) |
| Grouping.DropsNeverAborts | core/dedup.go:58-63 | the log-and-drop policy never stops the loop |
| Grouping.Duplicates | core/match.go:18-24 | every group of the map with more than one member is reported, and everything reported is such a group of the map, no more entries than the map has keys (with core/dedup.go:19-25) |
| CoreMatch.GroupFiles | core/match.go:41-60 | Group panics exactly when two files share a hash but not a size; otherwise each hash keys the group of all its files, in snapshot order, under the size of the first |
| CoreMatch.Dedup | core/match.go:18-24 | a group of the map is reported exactly when it has more than one file, and nothing but groups of the map is reported |
| CoreMatch.DedupWith | core/match.go:27-38 | panics only on a size mismatch or an empty group; every pair printed is a file of the list whose hash is a key, with the group's size, and the first member of that group |
| CoreMatch.DedupWithAborts | core/match.go:27-38 | DedupWith panics exactly when some file's hash has a group of another size, or an empty group |
| CoreMatch.DedupWithGroups | core/match.go:27-38 | against another snapshot's grouping, DedupWith panics only on a size mismatch; every pair printed is a file of this snapshot and one of the other with equal hash and size; one pair per file whose hash is known, in order; the groups are never modified |
| CoreGroup.SortByPathSorts | core/group.go:18-32 | the sort leaves the same nodes, ascending by path (with core/group.go:88-90) |
| CoreGroup.SortGroups | core/group.go:21-31 | the end-of-stream sort panics exactly when a group of two or more nodes holds one whose path fails; otherwise every group is sorted by path, with the same nodes and size (with core/group.go:88-90) |
| CoreGroup.SortSingletons | core/group.go:88-90 | groups of at most one node are never compared, so sorting them neither panics nor changes them |
| CoreGroup.Load | core/group.go:77-114 | a failed open is returned with the map untouched; otherwise the error returned is the first value received from the error channel, or nil when the node channel closed first |
| CoreGroup.LoadEvents | core/group.go:83-113 | returns what the error channel yielded first, nil included; when the node channel closes first it returns nil and every group is ascending by path |
| CoreGroup.LoadIsFold | core/group.go:83-113 | the select loop is the exiting grouping fold over the nodes that arrived before the first receive from the error channel; the sort follows only when the node channel closed first, and otherwise that receive's value, nil included, is returned unsorted |
| CoreGroup.LoadAborts | core/group.go:77-114 | Load into a new map stops the program exactly when two arrived files share a hash but not a size (fatal), or, when the node channel closes before anything is received from the error channel, a group of two or more holds a node whose path fails (panic) |
| CoreGroup.LoadInterrupted | core/group.go:110-111 | when the error channel yields first, an error or the nil of the closed channel, Load returns that value with the arrived nodes grouped in arrival order and unsorted |
| CoreGroup.LoadCompleted | core/group.go:86-91 | when the node channel closes before anything is received from the error channel, Load returns nil with the arrived file nodes grouped by hash and each group sorted by path |
| CoreGroup.NilErrorSkipsSort | core/group.go:110-111 | when the closed error channel wins the select, Load returns nil with a group left in arrival order, which is not sorted by path |
| CoreGroup.TestAbs | core/group_test.go:55-72 | on the fixture, with three distinct digests, Load succeeds and leaves one group per file, the directories skipped |
| CoreGroup.AbsKeys | core/group_test.go:74-84 | on the fixture, the digest of "aze" is a key; that of "foe" and the directories' zero hash are not |
| CoreGroup.DedupStats | core/group.go:51-74 | the uint64 counters: the number of groups with more than one node, and the sum of size times extra copies over them, both wrapped to 64 bits |
| CoreGroup.WasteNonNegative | core/group.go:70 | the wasted total is never negative |
| CoreDedup.Matches | core/dedup.go:47-70 | the loop groups every file node by hash; each group holds, in order, the nodes of its hash that have the first one's size |
| CoreDedup.OneSizePerGroup | core/dedup.go:54-69 | every group is non-empty and holds only file nodes of its hash and of its size |
| CoreDedup.CollisionDropped | core/dedup.go:58-65 | a node whose hash is known under another size leaves the map as it was; one of the right size is appended to its group |
| CoreDedup.Dedup | core/dedup.go:19-25 | exactly the groups with more than one node are reported, each a group of the map (with core/dedup.go:72) |
| CoreSnapshot.Walker | core/snapshot.go:60-95 | an error is swallowed and nothing recorded; a hidden directory gives SkipDir; hidden entries, directories, non-regular and empty files are not recorded; anything else is appended with its path and size, and the total grows by the size |
| CoreSnapshot.WalkerKeepsTotal | core/snapshot.go:91-92 | the total stays the int64 sum of the recorded sizes |
| CoreSnapshot.CollectRecords | core/snapshot.go:60-95 | from an empty snapshot, the callbacks leave exactly the recorded visits in visiting order, with their total |
| CoreWalk.Bfs | core/cmd_create.go:86-123 | the walk stops only when expanding a queued node stops; otherwise the nodes given IDs are the root followed by the children of each node in turn, numbered 1, 2, 3, … without gaps, each with an earlier parent whose listing succeeded; the nodes sent are those whose listing succeeded (with core/walker_source.go:59-95) |
| CoreWalk.ParentsSentFirst | core/cmd_create.go:87-122 | every node sent other than the root comes after its parent |
| CoreWalk.SentWhere | core/cmd_create.go:93-98 | the nodes sent are the allocated ones whose listing succeeded, in ID order (with core/cmd_create.go:122) |
| CoreWalk.AllocatesChildren | core/cmd_create.go:113-117 | every child of an allocated node is itself among the nodes allocated after the root |
| ChildNodes.Kids | core/cmd_create.go:99-118 | every child made is MakeNode's node for one of the names, admitted and kept; the loop stops only on a parent without ID or, as written, a failed lstat (with core/walker_source.go:75-90) |
| ChildNodes.KidsComplete | core/cmd_create.go:99-118 | every admitted name whose lstat succeeds and whose node is kept becomes a child |
| ChildNodes.KidsAborts | core/cmd_create.go:99-111 | the loop stops exactly when an admitted name meets a parent without ID or, as written, a failed lstat |
| ChildNodes.KidsAgree | core/cmd_create.go:104-111 | both revisions give the same children when every admitted name can be lstat'ed |
| Exclusions.Has | core/exclusion.go:12-21 | true exactly when the name is in the list, found at its first occurrence; false on an empty list |
| Exclusions.CreateExcludes | core/cmd_create.go:34 | the list Create passes holds ".git" and ".DS_Store" and nothing else |
| CreateWalker.Expand | core/cmd_create.go:93-118 | one dequeued node stops the walk only without an ID or, as written, on a name that cannot be lstat'ed; otherwise it is sent exactly when it is not a directory or can be listed, and its children are listed names, not excluded, that are directories or non-empty regular files |
| CreateWalker.Walker | core/cmd_create.go:72-126 | a relative path and a root lstat failure are fatal; past the root, the only thing that can stop the walk is a nil-dereference panic (the vanished-name case), and only as written; the root has ID 1 and every later node the next ID after its parent; every later node is a directory or a non-empty regular file whose name is not excluded; every listed name of a listed directory that is not excluded, can be lstat'ed and passes the filter is given an ID; the nodes sent are the allocated ones that are not unlistable directories, in ID order, each after its parent |
| CreateWalker.WalkedNodes | core/cmd_create.go:100-111 | every node after the root passed the exclusion list and the kind and size filter |
| CreateWalker.WalkedComplete | core/cmd_create.go:99-118 | every name a listed directory of the walk admits, that can be lstat'ed and passes the filter, is given an ID |
| CreateWalker.ExpandAgree | core/cmd_create.go:104-111 | both revisions expand alike when every listed entry can be lstat'ed |
| CreateWalker.VanishedEntry | core/cmd_create.go:104-111 | as written, expanding a directory whose only entry vanished after the listing panics (one Expand step of the walk); corrected, that step skips the entry and the directory is sent |
| WalkerSource.DefaultSkipsNotLegit | core/walker_source.go:15-17 | the default skipper leaves out exactly what is neither a directory nor a non-empty regular file, so never a directory |
| WalkerSource.NameSkip | core/walker_source.go:20-29 | a name skipper leaves out a node exactly when its name is listed, directory or not, or the default skipper leaves it out |
| WalkerSource.InvertedSkipper | core/walker_source.go:37-39 | as written, a nil skipper keeps a symlink and a name skipper keeps ".git"; the corrected test leaves both out |
| WalkerSource.SkipperIntended | core/walker_source.go:37-39 | corrected, no skipper keeps exactly directories and non-empty regular files, and a given skipper is obeyed |
| WalkerSource.Expand | core/walker_source.go:64-90 | one dequeued node stops the walk only on the fatal Path error of a directory, without an ID, or, as written, on a name that cannot be lstat'ed; a node whose path is cached is sent exactly when it is not a directory or can be listed; its children are listed names the effective skipper keeps |
| WalkerSource.WalkersAgree | core/walker_source.go:20-29 | once both are corrected, this walker with a name skipper expands a node exactly as the create walker with the same names excluded (with core/walker_source.go:75-90, core/cmd_create.go:99-118) |
| WalkerSource.WalkFS | core/walker_source.go:36-99 | a relative path is an error returned before the walk; a root lstat failure is fatal; past the root, the only thing that can stop the walk is a nil-dereference panic (the vanished-name case), and only as written; the root has ID 1 and every later node the next ID after its parent; every later node is kept by the effective skipper; every listed name of a listed directory that can be lstat'ed and is kept is given an ID; the nodes sent are those that are not unlistable directories, in ID order, each after its parent |
| WalkerSource.WalkedNodes | core/walker_source.go:81-89 | every node after the root was kept by the effective skipper; corrected and without a skipper, each is a directory or a non-empty regular file |
| WalkerSource.WalkedComplete | core/walker_source.go:75-90 | every name of a listed directory of the walk that can be lstat'ed and is kept by the effective skipper is given an ID |
| WalkerSource.VanishedChild | core/walker_source.go:76-83 | as written, expanding a directory whose only entry vanished after the listing panics whatever the skipper (one Expand step of the walk); corrected, that step skips the entry and the directory is sent |
| NcoreWalk.Entry | ncore/walk.go:49-80 | an entry gives a node exactly when lstat succeeds and it is a directory or a non-empty regular file; a directory child has the joined path and no name, a file child its name and uint64 size and no path; its parent ID is the node's |
| NcoreWalk.ChildrenSound | ncore/walk.go:48-82 | every child queued comes from one of the names |
| NcoreWalk.ChildrenComplete | ncore/walk.go:48-82 | every name whose entry is kept gives a child |
| NcoreWalk.ListChildren | ncore/walk.go:48-82 | the kept entries take the next IDs in listing order, and the counter grows by their number |
| NcoreWalk.Walker | ncore/walk.go:24-87 | the root is sent first with ID 1, parent ID 0 and the root path; every node has the next ID and an earlier directory as parent; a panic comes right after sending a directory that cannot be listed; otherwise every directory sent was listed and the nodes after the root are exactly the kept entries of the directories sent, in order |
| NcoreWalk.SentAreEntries | ncore/walk.go:35-82 | every node sent after the root is a kept entry of its parent's listing |
| NcoreWalk.EntriesAreSent | ncore/walk.go:35-82 | every kept entry of every directory sent by a walk that did not panic was sent |
| Units.Scale | core/units.go:22-26 | at loop exit div is 1024^(exp+1) with 1 <= b/div < 1024; for any count below 2^64, exp <= 5 and div fits in an int64 (with internal/units.go:22-26) |
| Units.ScaleUnique | core/units.go:22-26 | only one exponent leaves a quotient between 1 and 1023, so the loop picks the only fitting unit |
| Units.UnsignedString | core/units.go:17-29 | below 1024 the decimal count and " B"; otherwise the count over 1024^(exp+1) and a space, the letter "KMGTPE"[exp] and "iB" |
| Units.SignedString | internal/units.go:17-29 | below 1024, negative counts included, the decimal count and "B"; otherwise the count over 1024^(exp+1) and the bare letter "KMGTPE"[exp] |
| Base.DecimalRoundTrip | core/units.go:20 | the decimal text `%d` prints reads back as the number, after its sign |

## Left out

- Hashing: reading file contents, SHA-1, the worker pools and their channels. A hash is an opaque 20-byte value.
- gob encoding and decoding. A stream is a sequence of decoded records.
- Goroutines and channels. The node channel of each walker is the sequence of nodes sent. The select loop of `HashGroup.Load` is a sequence of events, node or error.
- Printing and logging, the progress bar, and the `%.1f` formatting in both units files. A scaled size is kept as numerator, divisor and unit.
- `filepath.Join` is modelled without `Clean`: an empty side is dropped, otherwise the parts are joined with "/".
- `MakeChildNode`, which `WalkFS` calls, is not part of this model; `WalkFS` is modelled with `MakeNode` in its place.
- The `reader` that feeds core/dedup.go's loop is not part of this model; the loop is modelled over the sequence of nodes it sends.
- The `RootPath` message in core/dedup.go:50-52 prints only, so it is not modelled.
- `Tree.Search`, `Tree.AbsPath` and `Tree.Check` in tree.go are not modelled. They need the header's root path or stat calls.
- `parent.Attach(n)` in core/codec.go:54 and `n.tree = t` in core/tree.go:42 are not modelled: neither `Attach` nor a `tree` field is in core/node.go, so they are not part of this model.
- The ncore node's hash and parent pointer are not modelled. The walker sets neither, apart from the pointer.
- The sort in `HashGroup.Load` is modelled as an insertion sort. `sort.Sort` is not stable, so equal paths may come out in another order; the model promises only ascending order and the same nodes.
- CoreWalk.Bfs: IDs are unbounded naturals. The uint64 counter's wrap-around after 2^64 nodes is not modelled.
- CreateWalker.Walker: IDs are unbounded naturals, as in CoreWalk.Bfs.
- WalkerSource.WalkFS: IDs are unbounded naturals, as in CoreWalk.Bfs. The `ctx` argument is unused in the source and not modelled.
- NcoreWalk.Walker: IDs are unbounded naturals. A node's hash and parent pointer are not modelled.
- SnapTree.RelPath: a cyclic parent chain makes the Go loop run forever. The model gives up after one step per node and reports `Diverges`; SnapTree.RelPathTerminates shows that a walker-made tree never gets there.
- CoreTree.RelPath: a cyclic parent chain makes the Go loop run forever, so the model takes a step bound as a parameter and returns None when it runs out. Unlike SnapTree.RelPath, the bound is not fixed, so None can also come from a bound shorter than a long but finite chain. CoreTree.RelWalkEnds shows that a bound above the node's ID is enough in a walker-made tree.
- CoreTree.ReadIterator: is stated over what the iterator yields and the error it reports, not over the Iterator interface.
- Units.UnsignedString: the `%.1f` value is not computed; the result holds the count and the divisor it is printed from.
- Units.SignedString: the `%.1f` value is not computed, as in Units.UnsignedString.
- Other revisions of the walk and of the snapshot: `WalkFS` in snapshot.go and core/filewalker.go use `Reset`/`Allocate`, which are not part of this model. The hsnap file and channel codecs, the state/ iterators, the ancestor search for the state file and the command-line programs are not modelled either.

## Findings

| source | as written | input that shows it | evidently intended | confidence | as-written member | corrected member |
|---|---|---|---|---|---|---|
| core/codec.go:43-53 | the node is stored under its ID before its parent is looked up, so a node can be its own parent | a first record with ID 2 and parent ID 2 is accepted by a new decoder | the parent must have been decoded before the node | high, not executed | CoreCodec.SelfParentAccepted | CoreCodec.CheckedParentsBefore |
| core/cmd_create.go:104-111 | a failed MakeNode is only logged; the loop goes on and reads the fields of the nil child | the Expand step for a directory "/r" listing "x" when lstat of "/r/x" fails (the entry vanished) panics | skip the name and go on with the next one | high, not executed | CreateWalker.VanishedEntry | CreateWalker.Walker |
| core/walker_source.go:37-39 | `if skip != nil` replaces a given skipper by DefaultSkipper and leaves nil as nil, so nil skips nothing and a name skipper's names are ignored | WalkFS with a nil skipper keeps a symlink; with MakeNameSkipper([".git"]) it keeps ".git" | `skip == nil` | high, not executed | WalkerSource.InvertedSkipper | WalkerSource.SkipperIntended |
| core/walker_source.go:76-83 | a failed MakeChildNode is only logged; `skip(child)` or `child.ID` then reads the nil child | the Expand step for a directory "/r" listing "x" when lstat of "/r/x" fails panics, whatever the skipper | skip the name and go on with the next one | high, not executed | WalkerSource.VanishedChild | WalkerSource.WalkFS |
