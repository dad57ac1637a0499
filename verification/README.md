# Snapper: comparison, undo, cache, cleanup and use counting

A Dafny 4.11 model of snapper, the tool that compares filesystem snapshots, undoes the difference between
two of them, decides which ones to drop, and serves several clients from one daemon. `dafny verify dfyconfig.toml`
checks the whole project.

## What is modelled

A directory tree is a finite, prefix-closed map from paths to directories, regular files and symbolic links.

* **Comparing** (`Compare`, `CmpDirs`). The merge walk over two sorted directory listings appends, for every pair of
  trees, exactly the files whose status is not zero, each once; the status of a path is defined on its own, from the two
  trees, without the walk, and each of its flags is stated from the fields of the two entries (`CmpDirs.DiffTells`).
  Comparing in the other direction inverts every status.
* **Undoing** (`FileLists`, `Kernel`, `Undo`, `UndoRun`, `UndoSelection`, `UndoLoop`, `UndoTheorem`). The system calls
  of an undo are functions on trees that follow symbolic links wherever the kernel would, and that may be refused. Undo
  runs one call after the other. `UndoTheorem.CompareAndUndo` is the end-to-end result: it walks two snapshots, sorts,
  selects everything and undoes it. On a system equal to the post snapshot, with no call refused, it succeeds and yields
  the pre snapshot if a condition on the two snapshots and the mount point holds, and only if, unless a chmod goes
  through a link of the difference that leads somewhere. Where all can be read, no link overflows the buffer of
  readlink, and no time stamp or inode lies, that condition comes down to this: no mode has to be set where a link was
  replaced, and at `/` nothing directly below it has changed. `UndoLoop.UndoAll` says what any part of a comparison does in
  trees without links: which tree a successful run leaves, and that, with no call refused, it succeeds exactly when
  nothing unselected is in the way; and under any refusals only selected paths and missing directories above them
  change.
* **The cache** (`FileText`, `Store`, `SnapshotList`). Snapshots are created, deleted (numbers may be reused), and
  compared; a comparison is kept as text in the directory of the newer snapshot and serves both argument orders. In
  every run each state follows from the one before as its request demands, and in each of them every such text is what
  comparing its two snapshots now would be written as.
* **The Btrfs comparison** (`TreeNodes`, `SendStream`, `StreamTracker`, `StreamExact`, `BtrfsCompare`). A tree of path
  components collects the net effect of a send stream. One event keeps the books right if and only if a condition on
  the tree before it holds; a stream all of whose events meet it yields the same report as the walk over both trees.
* **Cleanup** (`Cleanup`, `CleanupRun`). What goes is stated on the list of snapshots itself: their marks, their dates,
  how many are behind them, and their partners. The greedy loop with four counters equals filling hourly, daily, monthly and
  yearly slots one kind after the other; the selection is idempotent; the two filters yield the greatest set that tears
  no pair apart.
* **The daemon** (`UseCount`, `Requests`, `Daemon`). Every critical section of a client thread, the background worker and the
  periodic loop is one step, whose answer and effect `Requests` states on the bare state. In every interleaving the counter of a configuration is the number of its comparisons, plus
  those being computed without the lock, plus the background tasks not yet released; so nothing in use is unloaded or
  deleted.
* **Strings on the bus** (`Dbus`). Escaping and unescaping are inverse on all byte strings; unescaping fails exactly where
  a backslash begins no escape; what arrives over the bus is
  the text up to its first NUL.

## Where the code does not do what it is meant to

Each of these is modelled as the code does it, with the exact condition under which the promise holds.

* `File::createParentDirectories` cannot name the parent of an entry directly below a subvolume mounted at `/`: the
  leading path is the empty string, so creating or modifying `/etc` itself fails (`UndoTheorem.UndoRootEntry`).
* After a change of type that restores a symbolic link, the mode is set through the link
  (`UndoTheorem.UndoLink`).
* `readlink` fills a buffer of 1024 bytes, so a longer target is restored truncated; and its -1 converts to `true` in
  `cmpFilesContentLnk`, so that two unreadable links pass for equal.
* A file list is one line per path: a path with a line break never comes back out of the cache, although its first
  comparison was right (`Store.LoadedIsFresh`). Asking again in the other order is then no longer the inverse, if the
  first comparison was not cached before (`SnapshotList.Snapshots.CompareBothWays`).
* `Comparison::save` checks neither `fprintf` nor `fclose` before it renames the file into place. A file list cut short
  anywhere but at its last line break loads as another comparison (`FileText.TruncatedIff`).
* `StreamProcessor::deleted` erases any tracked node that it finds, so the deletion of a directory is lost when one of its
  entries has been reported before (`StreamExact.NestedRemoveCounterexample`), and so is that of a changed node that is
  renamed or removed.
* `merge` puts the target in front of every level but the first again, so a renamed subtree deeper than one level ends up
  in the wrong places when the target is tracked (`StreamExact.DeepMergeInexact`).

## Model

| member | source | states |
|---|---|---|
| Names.ParseRender | snapper/Compare.cc:259 | a reported name, read as a path again, is the path it was made from |
| Names.RenderIs | snapper/Compare.cc:250-266 | a reported name spells every component of its path after a slash |
| Names.AncestorsFirst | snapper/File.cc:94-105 | the order of names puts a directory before everything below it |
| Names.LessTotal | snapper/File.cc:94-98 | names are totally ordered |
| Names.LessIff | snapper/File.cc:94-98 | a name comes first if it is a proper beginning of the other, or has the smaller byte where they first differ |
| Names.Sort | snapper/File.cc:101-105 | sorting yields the same elements in nondecreasing order |
| Status.InvertStatusInvolution | snapper/File.cc:691-697 | inverting a status twice is the identity, unless it claims both creation and deletion |
| Status.InvertStatusBits | snapper/File.cc:691-697 | inverting swaps creation and deletion and keeps every other flag |
| Status.StatusRoundTrip | snapper/File.cc:629-688 | the four letters determine the status if and only if at most one flag of the first column is set |
| Status.LettersWritten | snapper/File.cc:629-660 | which letter stands for which flag, and which flag takes precedence in the first column |
| Status.LettersRead | snapper/File.cc:663-688 | how any string is read, letter by letter |
| Status.BitsPrintable | snapper/Compare.cc:173-206 | every status that cmpFiles yields survives being written with four letters |
| Trees.Entries | snapper/FileUtils.cc:165-202 | a directory listing has every entry once |
| Compare.CmpFilesContentReg | snapper/Compare.cc:45-122 | the block-wise comparison: an equal time stamp makes files equal; else another size makes them differ; else no data or one inode makes them equal; else they are equal exactly if both can be read and the data are the same |
| Compare.CmpFilesStep | snapper/Compare.cc:173-206 | the accumulated flags say which of kind, content, mode, owner and group differ |
| Compare.CmpFilesTells | snapper/Compare.cc:45-206 | each flag of two entries, from kind, mode, owner, group, time stamps, inodes, sizes, data and link targets |
| Compare.CmpFilesSymmetric | snapper/Compare.cc:173-206 | comparing two files does not depend on their order |
| Compare.DiffAntisymmetric | snapper/Compare.cc:293-406 | comparing the trees the other way round inverts every status and changes nothing else |
| CmpDirs.ListSubdirs | snapper/Compare.cc:250-266 | appends everything below a directory that exists on one side only, each path once |
| CmpDirs.Lonesome | snapper/Compare.cc:282-290 | appends an entry that exists on one side only with all below it |
| CmpDirs.Twosome | snapper/Compare.cc:293-322 | appends what is due at and below a path that exists on both sides, also where its type changed |
| CmpDirs.MergeStep | snapper/Compare.cc:340-405 | one turn of the merge appends what is due for the names it passes and leaves both listings in step |
| CmpDirs.CmpDirsWorker | snapper/Compare.cc:325-406 | appends every path with a status below a pair of directories, each once |
| CmpDirs.CmpDirs | snapper/Compare.cc:409-440 | reports every differing path outside /.snapshots exactly once with its status, and nothing else; every flag it reports is true of the two entries |
| CmpDirs.DiffTells | snapper/Compare.cc:173-440 | a report of the difference tells of every path whether it came, went, or changed, and in what |
| CmpDirs.DiffFilesUnique | snapper/Comparison.cc:113-139 | no name is reported twice |
| FileLists.ListingUnique | snapper/File.cc:101-105 | a comparison has only one sorted list |
| FileLists.SortedIsListing | snapper/File.cc:101-105 | sorting a list of distinct names gives a strictly ascending list of the same files |
| FileLists.FindIndexFinds | snapper/File.cc:115-128 | in a sorted list the search finds every name at its place |
| FileLists.UndoStepsOrdered | snapper/File.cc:591-615 | the steps are those of the selected files: deletions first and bottom-up, then the others top-down |
| FileLists.FilteredMembers | snapper/File.cc:86-91 | filtering drops exactly the ignored names |
| FileLists.FilteredAscending | snapper/File.cc:86-91 | filtering keeps the list sorted |
| FileLists.Files.Sort | snapper/File.cc:101-105 | the files are sorted in place |
| FileLists.Files.Filter | snapper/File.cc:86-91 | the files are filtered in place |
| FileLists.Files.Find | snapper/File.cc:115-128 | the binary search finds the first entry not smaller, if it has the name |
| FileLists.Files.GetUndoSteps | snapper/File.cc:591-615 | both loops together yield the deletions from the back and then the rest from the front |
| FileLists.Files.SelectAll | client/snapper.cc:966-970 | the loop selects every file and changes nothing else |
| Kernel.LinkFreeLocates | snapper/File.cc:425-464 | without symbolic links a call reaches no path but the one it names |
| Undo.Subvolume.DeleteAllTypes | snapper/File.cc:425-464 | removes exactly the named node, succeeds on a node with nothing below it when nothing is refused, fails on one with something below it, and else leaves the tree alone |
| Undo.Subvolume.CreateParentDirectories | snapper/File.cc:246-278 | in a tree without links it succeeds only by making exactly the missing directories above the path, and, with nothing refused, whenever nothing is in the way and they can be named |
| Undo.Subvolume.MakeParent | snapper/File.cc:267-277 | a missing parent is made after what is missing above it |
| Undo.Subvolume.CreateDirectory | snapper/File.cc:320-348 | leaves a directory with mode and owner of the snapshot |
| Undo.Subvolume.CreateFile | snapper/File.cc:351-398 | on a free place leaves a regular file with data, mode and owner of the snapshot; with nothing refused it does so for every file that can be opened |
| Undo.Subvolume.CreateLink | snapper/File.cc:401-422 | on a free place leaves a link with the first 1024 bytes of the target, and the owner; with nothing refused it does so for every readable link with a target |
| Undo.Subvolume.CreateAllTypes | snapper/File.cc:281-317 | on a free place leaves the node of the snapshot, and in trees without links the missing directories above it; fails where the node cannot be read or its parent cannot be made or named |
| Undo.Subvolume.ModifyAllTypes | snapper/File.cc:467-525 | rewrites content, mode and owner exactly as far as the status asks, and touches no other path |
| Undo.UndoneByParts | snapper/File.cc:528-555 | deletion, creation and modification together undo one file: what they leave, and when they succeed |
| Undo.UndoneTypeChange | snapper/File.cc:528-555 | a node of another kind is replaced, and setting its attributes again changes nothing |
| Undo.Subvolume.DoUndo | snapper/File.cc:528-555 | undoes one file exactly when its status fits the tree; brings a deleted path back below missing directories; fails where something is below what has to go; in any tree without links it touches only the path and missing directories above |
| UndoRun.MixUndoable | snapper/File.cc:591-615 | when the turn of a path has come its status fits the tree: parents are there before children are made, and gone only after |
| UndoRun.MixStep | snapper/File.cc:528-555 | undoing one path moves it from the post side to the pre side and nothing else |
| UndoRun.ItsTurn | snapper/File.cc:591-615 | the order of the steps gives every path its turn |
| UndoRun.OneStepOn | client/snapper.cc:997-1043 | each step keeps the tree the mixture of post and pre that the steps so far call for |
| UndoRun.AllTheWay | client/snapper.cc:997-1043 | after the last step every reported path is on the pre side |
| UndoSelection.PartTurnAt | snapper/File.cc:591-615 | whatever is selected, what must be undone before a path has been undone when its turn comes |
| UndoSelection.ActionsTell | snapper/File.cc:591-615 | a step is announced as deletion, creation or modification by which of the snapshots have the path |
| UndoSelection.LeftBelow | snapper/File.cc:591-615 | when a directory has to go, there is nothing below it any more if and only if all that was below it is selected |
| UndoSelection.ClearIff | snapper/File.cc:246-278 | when a deleted path has to come back, nothing but directories is above it if and only if every other node there is selected |
| UndoSelection.FirstIsOld | snapper/File.cc:246-278 | below "/" a topmost directory that is missing stays missing |
| UndoSelection.PatchRemade | snapper/File.cc:246-317 | bringing a deleted path back adds it and the directories missing above it, and nothing else |
| UndoSelection.SelectedStepRight | snapper/File.cc:528-555 | each step of a partial undo moves exactly its path to the pre side; with nothing refused it succeeds if and only if what is below and above its path permits it |
| UndoSelection.PartOutcome | client/snapper.cc:995-1043 | where all can be read and no stamp lies: selected paths are as in the snapshot, others unchanged, missing directories above made; success exactly when nothing unselected is below what has to go or in the way of what has to come |
| UndoSelection.WholeFeasibleIff | snapper/File.cc:591-615 | with everything selected nothing is ever in the way: only what a single undo cannot restore is left to fail |
| UndoLoop.DoUndoStep | snapper/File.cc:618-626 | a step undoes the file it names |
| UndoLoop.UndoAll | client/snapper.cc:995-1043 | for any part of a comparison without links: the tree that a successful run leaves, and success if and only if every selected path permits it, also stated on the fields of the entries; for a complete list, also with links, the goal; under any refusals no other path changes |
| UndoTheorem.UndoComparison | snapper/File.cc:528-615 | undoing a whole comparison on the post snapshot yields the pre snapshot in kind, content, mode and owner outside /.snapshots if the stated condition holds, and only if, unless a chmod goes through a link that leads somewhere |
| UndoTheorem.SelectedIsWhole | client/snapper.cc:966-970 | selecting every entry of the sorted difference makes the complete list |
| UndoTheorem.TellingRestorable | snapper/File.cc:528-615 | where all can be read, links fit the buffer and no stamp lies, the condition is: no mode over a replaced link, and at "/" nothing directly below it changed |
| UndoTheorem.UnreadableIsLost | snapper/File.cc:351-398 | a regular file that has gone and cannot be read is not restored |
| UndoTheorem.CompareAndUndo | client/snapper.cc:930-1043 | walking, sorting, selecting everything and undoing, from the two snapshots alone: the pre snapshot is restored under the same condition; so, away from "/", whenever all can be read, links fit the buffer, no stamp lies, and no mode has to be set where a link was |
| UndoTheorem.GoalIsPre | snapper/Compare.cc:125-149 | what is restored is the pre snapshot exactly when no stamp lies and every rewritten link fits the buffer |
| UndoTheorem.RootEntryCounterexample | snapper/File.cc:246-278 | a changed mode directly below "/" does not meet the condition, though it would elsewhere |
| UndoTheorem.UndoRootEntry | snapper/File.cc:246-278 | the undo of that mode, with no call refused, restores it if and only if the subvolume is not mounted at "/" |
| UndoTheorem.LinkCounterexample | snapper/File.cc:503-511 | a link replaced by a file of another mode does not meet the condition anywhere |
| UndoTheorem.UndoLink | snapper/File.cc:503-511 | the undo of that link, with no call refused, does not restore it where the link leads nowhere |
| FileText.RoundTrip | snapper/Comparison.cc:170-236 | a list survives being written and read if and only if every name is free of line breaks and every status is printable |
| FileText.LineWritten | snapper/Comparison.cc:228-236 | a file is written as four letters, a space, its name and a line break |
| FileText.LineRead | snapper/Comparison.cc:170-185 | any line is read as a status before its first space and a name behind it |
| FileText.LineSkipped | snapper/Comparison.cc:170-185 | a line without a space is passed over |
| FileText.DecodedWritable | snapper/Comparison.cc:170-185 | whatever is read could have been written |
| FileText.TruncatedIff | snapper/Comparison.cc:168-236 | a file list that was cut short comes back whole if and only if at most the last line break is missing |
| FileText.LineBreakCounterexample | snapper/Comparison.cc:168-236 | a name with a line break comes back as another |
| FileText.ReadList | snapper/Comparison.cc:168-192 | the reading loop yields the decoded lines, inverted if asked for |
| FileText.WriteList | snapper/Comparison.cc:228-236 | the writing loop yields the text of the list, inverted if asked for |
| Store.Find | snapper/Snapshot.cc:672-683 | finds the first snapshot with a number, or none |
| Store.FindPost | snapper/Snapshot.cc:340-353 | finds the first POST of a PRE, or none |
| Store.ListingWritable | snapper/Comparison.cc:228-236 | a comparison can be written down faithfully if and only if no path contains a line break |
| Store.InvertedListing | snapper/Comparison.cc:153-181 | inverting the list for one order gives the list for the other |
| Store.LoadedIsFresh | snapper/Comparison.cc:142-197 | what is loaded, in either order, is what comparing anew would give, if and only if no path contains a line break |
| SnapshotList.AppendPaired | snapper/Snapshot.cc:577-590 | a new snapshot keeps: every POST names an older PRE or a number nobody has, no two the same |
| SnapshotList.DanglingStaysDangling | snapper/Snapshot.cc:392-419 | the number of a deleted PRE is not given out again while a POST still names it |
| SnapshotList.RemoveKeepsPairs | snapper/Snapshot.cc:630-661 | deleting a snapshot keeps numbers increasing and pairs sound |
| SnapshotList.CacheKept | snapper/Snapshot.cc:630-661 | the cache stays true when file lists only disappear and the snapshots behind the others stay |
| SnapshotList.UnlinkedCells | snapper/Snapshot.cc:642-655 | after the unlinking loops no file list speaks of the deleted number, and every other is untouched |
| SnapshotList.SnapshotRemoved | snapper/Snapshot.cc:630-661 | deletion keeps the whole invariant, whether or not the directory can be removed |
| SnapshotList.SnapshotAdded | snapper/Snapshot.cc:593-620 | creation keeps the whole invariant, also with a number that was used before |
| SnapshotList.ListingSaved | snapper/Comparison.cc:200-241 | saving a right list, in either order, keeps the whole invariant and makes it found |
| SnapshotList.BothAnswers | snapper/Comparison.cc:62-79 | when two answers in both orders are each other's inverse, judged by how each was obtained |
| SnapshotList.Snapshots.NextNumber | snapper/Snapshot.cc:392-419 | the first number above the last that neither a snapshot nor a directory has, and its directory is made; or, where mkdir fails otherwise, nothing changes |
| SnapshotList.Snapshots.CreateHelper | snapper/Snapshot.cc:593-620 | the snapshot is appended with a copy of the live system, or nothing but its directory is undone |
| SnapshotList.Snapshots.CreateSingle | snapper/Snapshot.cc:555-563 | the complete effect of making a single snapshot, for every way it can end |
| SnapshotList.Snapshots.CreatePre | snapper/Snapshot.cc:566-574 | the complete effect of making a pre snapshot |
| SnapshotList.Snapshots.CreatePost | snapper/Snapshot.cc:577-590 | refused if and only if the named snapshot is missing, current, no PRE, or has a POST; otherwise the complete effect |
| SnapshotList.Snapshots.DeleteSnapshot | snapper/Snapshot.cc:630-661 | refused if and only if missing or current; otherwise one entry less and no file list left about it |
| SnapshotList.Snapshots.UnlinkFilelists | snapper/Snapshot.cc:642-646 | the first loop empties the directory of file lists |
| SnapshotList.Snapshots.UnlinkOthers | snapper/Snapshot.cc:648-655 | the second loop removes the number from the directories of all others |
| SnapshotList.Snapshots.Create | snapper/Comparison.cc:113-139 | comparing anew yields the sorted difference of the two trees |
| SnapshotList.Snapshots.Load | snapper/Comparison.cc:142-197 | succeeds if and only if the pair is cached; the list is then exact if and only if no path has a line break |
| SnapshotList.Snapshots.Save | snapper/Comparison.cc:200-241 | at most the file list of this pair is written, and the pair is cached afterwards |
| SnapshotList.Snapshots.Initialize | snapper/Comparison.cc:62-79 | two snapshots are cached afterwards, the live system never; the list is exact unless cached before with a line break |
| SnapshotList.Snapshots.Compare | snapper/Comparison.cc:43-79 | refused if and only if a snapshot is missing or both are the same; otherwise the exact list without ignored names |
| SnapshotList.Snapshots.CompareBothWays | snapper/Comparison.cc:62-241 | asking in the other order gives the same files with every status inverted, if and only if the live system is involved, no path has a line break, or the pair was cached before |
| SnapshotList.Snapshots.Step | snapper/Snapshot.cc:555-661 | what each request answers and leaves: a snapshot made or not, one deleted with every file list about it or refused, a comparison given or refused |
| SnapshotList.Snapshots.Run | snapper/Comparison.cc:62-241 | in every run of creations, deletions and comparisons each state follows from the one before as its request demands, and in each every cached file list is what comparing its snapshots now would be written as |
| TreeNodes.InsertTracks | snapper/Btrfs.cc:388-410 | insert keeps every status and tracks exactly the path and its prefixes in addition |
| TreeNodes.EraseRemoves | snapper/Btrfs.cc:413-445 | erase removes the status of the named path and of no other |
| TreeNodes.EraseKeepsLive | snapper/Btrfs.cc:413-445 | erase leaves no dead leaf |
| TreeNodes.RenameMoves | snapper/Btrfs.cc:448-465 | rename moves the whole subtree: new statuses are the old ones below the old path, nothing remains there, no other status changes |
| TreeNodes.RenameKeepsLive | snapper/Btrfs.cc:448-465 | rename leaves no dead leaf |
| TreeNodes.LiveReaches | snapper/Btrfs.cc:413-445 | at or below every tracked path there is a nonzero status |
| SendStream.ApplyClosed | snapper/Btrfs.cc:1020-1042 | every legal event leads from a tree to a tree |
| SendStream.CreateExact | snapper/Btrfs.cc:618-632 | recording a creation keeps the books right, whatever was tracked |
| SendStream.TouchExact | snapper/Btrfs.cc:893-993 | recording a write, truncation, change of mode or owner keeps the books right |
| SendStream.RemoveExactIff | snapper/Btrfs.cc:635-648 | recording a deletion keeps the books right if and only if the node is untracked or was created within the stream |
| StreamTracker.EntriesRecursive | snapper/FileUtils.cc:212-235 | lists everything below a directory, each directory before what it contains |
| StreamTracker.CreatedWrites | snapper/Btrfs.cc:618-632 | the status and the tracking of every path after a creation |
| StreamTracker.DeletedWrites | snapper/Btrfs.cc:635-648 | the status of every path after a deletion, and the tracking of every path apart from it |
| StreamTracker.StreamProcessor.Created | snapper/Btrfs.cc:618-632 | an untracked path gets CREATED, a tracked one every change flag; every other path keeps its status, just the path and those above it become tracked, no dead leaf appears |
| StreamTracker.StreamProcessor.Deleted | snapper/Btrfs.cc:635-648 | an untracked path gets DELETED, a tracked one loses its status; every other path keeps its status, paths neither above nor below stay tracked as they were, no dead leaf appears |
| StreamTracker.StreamProcessor.Process | snapper/Btrfs.cc:893-993 | a change event adds its flags to the status of its path and to no other; a rename fails exactly if the old path is untracked and its directory is missing in the old snapshot |
| StreamTracker.StreamProcessor.RenameUntracked | snapper/Btrfs.cc:802-823 | deletes every path the old snapshot has at the old place and creates each at the new one, and changes no other status |
| StreamTracker.StreamProcessor.Merge | snapper/Btrfs.cc:744-787 | which paths a merge can write at all, and what it writes for a subtree of one level |
| StreamTracker.StreamProcessor.ProcessRename | snapper/Btrfs.cc:790-845 | the status of every path after a rename, in all three cases |
| StreamExact.UntrackedRenameExact | snapper/Btrfs.cc:802-823 | renaming an untracked path keeps the books right, also onto a tracked target |
| StreamExact.CreatedRenameExact | snapper/Btrfs.cc:827-831 | so does renaming a path created within the stream onto an untracked target |
| StreamExact.JoinedRenameExact | snapper/Btrfs.cc:832-841 | so does merging a subtree of one level, created within the stream, into a tracked target |
| StreamExact.OldRenameInexact | snapper/Btrfs.cc:825-841 | a tracked path that existed before and is renamed loses its deletion |
| StreamExact.DeepMergeInexact | snapper/Btrfs.cc:744-787 | merging a deeper subtree does not record its grandchildren where they have gone |
| StreamExact.StepExactIff | snapper/Btrfs.cc:618-845 | for every event: CREATED, DELETED and the change flags are right afterwards if and only if the stated condition held before |
| StreamExact.NestedRemoveCounterexample | snapper/Btrfs.cc:635-648 | removing a file and then its directory records only the file |
| BtrfsCompare.Dump | snapper/Btrfs.cc:1045-1075 | the stream is read to its end with the books right after every event if and only if every event met the condition |
| BtrfsCompare.Check | snapper/Btrfs.cc:528-568 | fails if and only if some changed path cannot be looked up; otherwise replaces the change flags by what cmpFiles finds |
| BtrfsCompare.CheckedIsStatus | snapper/Btrfs.cc:528-549 | right books lead to the status that the tree walk assigns |
| BtrfsCompare.PathsAreTracked | snapper/Btrfs.cc:571-589 | the traversal reaches exactly the tracked paths |
| BtrfsCompare.Result | snapper/Btrfs.cc:571-589 | every path with a status is reported once, and nothing else |
| BtrfsCompare.BtrfsCmpDirs | snapper/Btrfs.cc:1159-1210 | the fast comparison reports what the tree walk reports: whenever it falls back, and whenever every event met the condition, and then it does not fall back |
| Cleanup.IsFirstIff | client/cleanup.cc:130-157 | on a newest-first list the scan finds out whether no strictly older snapshot of the same period follows |
| Cleanup.FirstIsOldest | client/cleanup.cc:130-182 | first of its hour, day, month or year is who has no older one with the same fields of the date behind it |
| Cleanup.FirstNests | client/cleanup.cc:160-182 | the first of a longer period is first of every shorter one |
| Cleanup.IsFirstScan | client/cleanup.cc:130-157 | the scanning loop decides being first |
| Cleanup.GivenIsCurrent | client/cleanup.cc:258-281 | with the kinds before full and those after untouched, the chain of conditions can only choose the current kind |
| Cleanup.SectionEnds | client/cleanup.cc:255-282 | each kind gets the first so many firsts of its period, counted from where the kinds before ran out; none is used earlier |
| Cleanup.TimelineSlots | client/cleanup.cc:218-282 | from the dates alone: down the list hourly, daily, monthly and yearly slots follow each other; each kind keeps the oldest of each of its periods until its limit is reached; behind the last all is rejected |
| Cleanup.SelectTimeline | client/cleanup.cc:255-282 | the greedy loop with four counters rejects what filling one kind after the other rejects |
| Cleanup.Idempotent | client/cleanup.cc:240-282 | run on its survivors the selection rejects nothing |
| Cleanup.SelectedAreFirst | client/cleanup.cc:255-282 | whatever is kept is the first of its hour |
| Cleanup.SurvivorsBounded | client/cleanup.cc:221-225 | no more is kept than there are slots |
| CleanupRun.FindPost | client/types.cc:57-70 | finds the first POST of a PRE, or none |
| CleanupRun.FindPre | client/types.cc:41-54 | finds the first PRE of a POST, or none |
| CleanupRun.WithPartnerIff | client/cleanup.cc:57-80 | the test of filter2 asks whether every partner is in the list |
| CleanupRun.Filter2Greatest | client/cleanup.cc:52-83 | one pass yields the greatest part of the list that tears no pair apart |
| CleanupRun.DoomedSafe | client/cleanup.cc:43-83 | nothing younger than the minimum age is deleted, no pair is torn apart, and no more is spared than that demands |
| CleanupRun.PairsTogether | client/cleanup.cc:52-83 | both halves of a pair are deleted or neither |
| CleanupRun.NewestSurvive | client/cleanup.cc:109-113 | number cleanup never deletes any of the newest snapshots within its limit |
| CleanupRun.SelectedSurvive | client/cleanup.cc:255-287 | what the timeline selection keeps is not deleted |
| CleanupRun.CleanupNumber | client/cleanup.cc:86-127 | a snapshot is deleted if and only if it is under number cleanup, old enough, has at least limit such snapshots behind it, and all this holds of its partners too |
| CleanupRun.CleanupTimeline | client/cleanup.cc:218-297 | a snapshot is deleted if and only if it is under timeline cleanup, old enough, rejected by the selection, and all this holds of its partners too |
| UseCount.NothingDangles | server/MetaSnapper.h:62-75 | whoever refers to a configuration finds it counted, the very Snapper it refers to loaded, and its snapshots there |
| UseCount.UnusedIff | server/Client.cc:400-405 | a configuration has use count zero if and only if nobody refers to it |
| UseCount.UnusedMayChange | server/snapperd.cc:141-145 | unloading, deleting or shrinking an unused configuration disturbs nobody |
| Daemon.LoadSound | server/MetaSnapper.cc:206-215 | loading keeps the invariant, at any address at which no Snapper lives |
| Daemon.DecEqualIsBump | server/Client.cc:105-117 | deleting a comparison gives back exactly one use of exactly one configuration |
| Daemon.TaskReleased | server/Background.cc:118-120 | the worker finds the Snapper loaded that its task was queued with, and the counter positive |
| Daemon.SnapperDaemon.ConnectClient | server/snapperd.cc:88-97 | a new client holds nothing |
| Daemon.SnapperDaemon.ClientDisconnected | server/snapperd.cc:112-128 | a disconnected client keeps its uses until it is removed |
| Daemon.SnapperDaemon.CreateConfig | server/MetaSnapper.cc:263-276 | a new configuration starts unused |
| Daemon.SnapperDaemon.CheckLock | server/Client.cc:372-383 | finds out whether another client that is no zombie holds the lock |
| Daemon.SnapperDaemon.DeleteConfig | server/Client.cc:564-589 | a configuration goes only when nobody refers to it and no other living client has locked it; each refusal exactly characterised |
| Daemon.SnapperDaemon.LockConfig | server/Client.cc:592-613 | the lock is added to this client |
| Daemon.SnapperDaemon.UnlockConfig | server/Client.cc:616-637 | the lock is taken from this client |
| Daemon.SnapperDaemon.BeginComparison | server/Client.cc:1066-1079 | the part before the unlock takes one use |
| Daemon.SnapperDaemon.FinishComparison | server/Client.cc:1083-1087 | the part after it finds Snapper and snapshots intact and leaves one use with the client |
| Daemon.SnapperDaemon.AbortComparison | server/MetaSnapper.h:68-69 | an exception or interruption in between gives the use back |
| Daemon.SnapperDaemon.DeleteComparison | server/Client.cc:1095-1120 | the comparison is found, dropped, and its use given back |
| Daemon.SnapperDaemon.CreateSnapshot | server/Client.cc:778-853 | a snapshot is added to its configuration |
| Daemon.SnapperDaemon.CreatePostSnapshot | server/Client.cc:856-900 | a queued background comparison takes one use and keeps the address of its Snapper |
| Daemon.SnapperDaemon.DeleteSnapshots | server/Client.cc:903-939 | refused exactly when the configuration is unknown, locked by another living client, or referred to; else the numbers go up to the first that is mounted, the live system, unknown or asked for twice, and the answer says which |
| Daemon.GoneIs | server/Client.cc:408-420 | which numbers go and what is answered, number by number |
| Daemon.SnapperDaemon.BackgroundRelease | server/Background.cc:118-120 | a finished task gives its use back; it never has to load, and the Snapper is the one it was queued with |
| Daemon.SnapperDaemon.BackgroundPop | server/Background.cc:122-124 | a released task leaves the queue |
| Daemon.SnapperDaemon.DestroyClient | server/Client.cc:46-55 | the destructor gives back every use of the client |
| Daemon.SnapperDaemon.RemoveZombies | server/Client.cc:1439-1449 | exactly the zombies whose threads have ended are removed |
| Daemon.SnapperDaemon.UnloadUnused | server/snapperd.cc:141-145 | only unused configurations lose their Snapper |
| Daemon.SnapperDaemon.Sweep | server/snapperd.cc:130-148 | the periodic wake-up: ended zombies go, then what nobody refers to any more and has expired loses its Snapper |
| Daemon.SnapperDaemon.Step | server/snapperd.cc:88-145 | the answer and the whole new state of every critical section, and that one which cannot take place does nothing |
| Daemon.SnapperDaemon.Run | server/Client.cc:1055-1092 | in every interleaving each state follows from the one before by the section of its turn, the counts are right and no reference dangles |
| Dbus.RoundTrip | dbus/DBusMessage.cc:290-378 | unescaping what was escaped gives the text back, for every byte string |
| Dbus.EscapeInjective | dbus/DBusMessage.cc:354-378 | no two texts are sent alike |
| Dbus.EscapedIsAscii | dbus/DBusMessage.cc:354-378 | what is sent is below 128 and has a NUL only where the text has one |
| Dbus.EscapedByte | dbus/DBusMessage.cc:354-378 | a byte is sent as itself, as a doubled backslash, or as \x and two digits with small letters |
| Dbus.HexDigits | dbus/DBusMessage.cc:290-336 | ten digits and six letters, small or capital, and what each stands for |
| Dbus.DigitsDecoded | dbus/DBusMessage.cc:290-336 | behind \x two digits are read, or one if no other follows |
| Dbus.FailsIff | dbus/DBusMessage.cc:290-336 | unescaping fails if and only if, behind something that can be decoded, a backslash is neither doubled nor followed by x and a digit |
| Dbus.OverTheBus | dbus/DBusMessage.cc:339-390 | a text arrives up to its first NUL, so whole if and only if it has none |
| Dbus.EscapeString | dbus/DBusMessage.cc:354-378 | the escaping loop escapes byte by byte |
| Dbus.UnescapeString | dbus/DBusMessage.cc:290-336 | the unescaping loop decodes or fails exactly as the grammar of escapes says |

## Left out

- Devices, sockets, pipes and hard links: a node is a directory, a regular file or a symbolic link with a content of its own. The Btrfs tracker ignores mknod, mkfifo and mksock, and events on the root itself (whose name is empty) do not occur.
- Mount points: every node of a tree is on the device of its root, so the st_dev tests of the tree walk always hold.
- Errors of stat, readdir or read in the middle of a comparison, and a copy that fails halfway and leaves partial data.
- The umask, set-id bits cleared by chown, extended attributes and ACLs; symbolic links that lead out of the subvolume and ".." components are answered by an arbitrary function of the environment.
- Compare.CmpFilesStep: the mode bits of a symbolic link are constant, so only the other kinds can differ in them.
- std::sort is modelled as an insertion sort; only its contract is used.
- UndoLoop.UndoAll: what a partial selection leaves, and the frame under refusals, are stated for trees without symbolic links; through a link a refused or misplaced call may reach another path.
- UndoTheorem.UndoComparison: where a chmod goes through a restored link that leads somewhere, the condition is sufficient but not shown necessary, since what the chmod changes elsewhere may by chance be as the snapshot has it.
- Store.FindPost: that an argument which is no PRE is refused is the callers' check (SnapshotList.Snapshots.CreatePost has it).
- CleanupRun.FindPost: the throw for an argument that is no PRE cannot happen in filter2, which asks for the kind first.
- CleanupRun.FindPre: likewise for an argument that is no POST.
- SnapshotList.Snapshots.Create: cmpDirs is the tree walk; on Btrfs the comparison from the send stream takes its place, whose agreement with the walk BtrfsCompare.BtrfsCmpDirs states.
- SnapshotList.Snapshots.Save: a temporary file that cannot be made, which ends the comparison with an error, and write errors, which go unnoticed, do not occur; FileText.TruncatedIff says what a file list that was cut short does.
- TreeNodes.InsertTracks: tree_node is a value held in the processor's field, and a write through a node pointer replaces the subtree; pointers into the tree that outlive an operation do not occur.
- StreamTracker.StreamProcessor.ProcessRename: where a subtree deeper than one level is merged, only which paths stay untouched is stated, as for Merge.
- StreamTracker.StreamProcessor.Merge: for subtrees deeper than one level only which paths can be written is stated, since what is written there is wrong anyway.
- The send ioctl, the pipe and the parsing of the stream: a stream is a list of events that are legal one after the other; a failing send is a parameter.
- BtrfsCompare.BtrfsCmpDirs: stated for snapshots whose files can be read and whose /.snapshots are the same, since the walk reports an unreadable file with another time stamp as changed and does not look into /.snapshots; the stream does neither.
- Cleanup.SelectTimeline: the four counters are one list, and the chain of four conditions is a loop over it.
- Reading the list of snapshots back from info.xml, dates, descriptions and user data; snapshot numbers do not overflow.
- SnapshotList.Snapshots.DeleteSnapshot: unmounting before the deletion and mount use counts are not modelled.
- Daemon.SnapperDaemon.Run: the objects of the daemon are values in one state, and each critical section is one step; condition variables, the time that must pass before unloading, permission checks and message marshalling become parameters. An exception in the background worker, which ends the process, and the debug request, which may look at a released task, are not modelled.
- Daemon.SnapperDaemon.CreatePostSnapshot: that the named snapshot is a PRE without a POST is left to a parameter; SnapshotList.Snapshots.CreatePost characterises it.
- Daemon.SnapperDaemon.DeleteSnapshots: a file system that fails to delete a snapshot is not modelled here; SnapshotList.Snapshots.DeleteSnapshot has it.
- Mounts held by clients: an unmatched unmount decrements a count unconditionally, so there is no sum to keep; which snapshots are mounted is a parameter of the deletion.
- Cleanup of empty pre and post pairs, whose own comparisons still count as use when it deletes.
- Cleanup.IsFirstIff: localtime is any function under which a period is one stretch of time.
- The command line, Ext4 and LVM, configuration files, regular expressions for ignored names (a predicate here), getPreToSystemStatus and the undo statistics.
