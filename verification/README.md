# Verified model of LevelDB 1.23

A Dafny model of the storage engine under `CSources/leveldb`, with proofs of what its parts promise and of how
they fit together. `dafny verify dfyconfig.toml` checks the whole project.

What is modelled, a module a component:

- **The merge tree** (`InternalKeys`, `Lsm`, `SnapshotReads`): writes, memtable rotation, flushes, trivial moves,
  compactions that start and finish in separate steps, and snapshots, as a state machine over whole runs. Compaction
  level, starting file and where outputs are cut are free choices. The main theorems: one invariant holds on every run,
  and a snapshot reads the same for as long as it is held exactly when no compaction exposes an old value at it.
- **The code that takes those steps** (`VersionSet`, `CompactionWork`, `VersionBuilder`, `PointReads`): input selection,
  the dropping loop, the version builder and `Get`, as imperative methods proved to do what the state machine allows.
- **Cursors** (`Iterators`, `Merger`, `DbIter`, `Iteration`, `TwoLevel`, `Block`): the iterators that switch direction, each proved to
  move like a plain cursor over a sorted list, and the user's cursor over everything a database holds.
- **Formats** (`Coding`, `LogFormat`, `WriteBatch`, `VersionEdit`, `Block`): writers and readers that undo each other, and a
  log that may be cut at any byte.
- **Tables** (`Separators`, `Table`, `TwoLevel`, `Bloom`, `FilterBlock`): shortened index keys, the look-up of one block, and filters.
- **Structures in memory** (`SkipList`, `Cache`): the skip list between any two stores of a link, and a shard of the
  block cache with its hash table, rings and reference counts.
- **Group commit** (`GroupCommit`): the queue of writers over every interleaving.
- **CRC32C** (`Crc32c`): the interleaved loop against the definition one bit at a time (section 12.1 of RFC 3720).

Two things the code does not establish, and what is proved about them:

- `SetupOtherInputs` closes only the input level under boundary files (`CSources/leveldb/db/version_set.cc:1386-1398`), while
  `IsBaseLevelForKey` looks only two levels down and deeper. `SnapshotReads.CompactionKeepsReadsIff` gives the exact condition
  under which a compaction preserves all reads, and `SnapshotIsolationIff` the exact condition on a run for a snapshot to read the same
  while it is held. `ClosedRunIsolates` shows that closing the output level when a compaction begins is enough, and
  `Resurrection.DeletedValueReturns` is a run on which, without it, a deleted value comes back.
- `PickLevelForMemTableOutput` looks only at existing files, so a memtable flushed in the middle of a compaction may land in a gap
  that the compaction's outputs will cover (`CSources/leveldb/db/db_impl.cc:921-933`). `FlushGap.MidCompactionFlushIff` says exactly
  which such flushes do harm, the state machine leaves out just those, and `FlushGap.FlushIntoTheGap` is a run that reaches one.

Four more findings are stated as theorems. The model follows the code.

- Decoding into a used `VersionEdit` keeps its compaction pointers, since `Clear` does (`VersionEdit.EncodeThenDecode`).
- Folding edits in one builder differs from saving after each when a number is added to a level again: `VersionBuilder.FoldStepIff` and
  `FoldedIsOneByOneIff` give the condition for the ordered lists of a level to agree, `FoldedLosesNothingIff` the one for no file to be
  lost, and `TiedAddIsLost`, `DeletedAddReturns` and `AddedTwiceComesBack` are inputs on which they differ.
- Moving backwards `DBIter`'s inner iterator need not rest just before the entries of the current key, as the comment at
  `CSources/leveldb/db/db_iter.cc:44-45` says: `DbIter.RestsBeforeKeyIff` says when it does, and `DbIter.RestFurtherLeft` is an input on
  which it does not.
- A switch of logs does not sync the old one (`CSources/leveldb/db/db_impl.cc:1365-1385`), so a crash may keep a sync write and lose an
  earlier one that was not synced: `GroupCommit.CrashLeavesFirstPartIff` says when it cannot, and `LaterSyncOutlives` is a run on which it may.

How things are represented: a user key is its place in the comparator's order, a real number, wherever only the order matters, and
a byte string where bytes matter (`Separators`, `Table`, `Block` and the formats); `Places` gives the places of the bytewise order. 32- and 64-bit limits are written out where values are encoded.
Atomics are sequentially consistent steps. The hash of `Bloom` is any function to 32-bit numbers. A block's comparator in `Block` is any order
given by a place for each key. The memory of `SkipList` is a value indexed by node number, since its histories are compared;
`Cache` is on the heap. Methods that a proof must follow through take or return ghost values beside the source's own parameters.

The invariants are not empty: each class's constructor and `SnapshotReads.RunInv` and `GroupCommit.RunInv` establish them from the
initial state, `Resurrection` follows the tree through seventeen steps, and `Iteration.Iterate`, `Block.BuildAndMove`, `Table.BuildAndGet`,
`LogFormat.ReadAll`, `WriteBatch.RecoverLogFile` and `VersionEdit.EncodeThenDecode` carry data all the way through the parts they join.

## Model

| member | source | states |
|---|---|---|
| `InternalKeys.CompareIsLess` | CSources/leveldb/db/dbformat.cc:47-63 | Comparing packed tags orders internal keys by user key upwards, then sequence and type downwards; only equal keys compare equal |
| `Places.PlaceKeepsOrder` | CSources/leveldb/util/comparator.cc:27-29 | Byte strings in bytewise order are places on the real line in their order, so a key may be modelled by its place |
| `Places.DecodedKeepsOrder` | CSources/leveldb/db/dbformat.cc:47-63 | Internal keys of bytes with a packed tag are ordered, and told apart, exactly as those of places with sequence and type are |
| `InternalKeys.Newest` | CSources/leveldb/db/dbformat.h:93-110 | What a read at a snapshot means: the entry of greatest sequence not past it, over a set of entries, exists |
| `InternalKeys.NewestIsUnique` | CSources/leveldb/db/dbformat.h:93-110 | With one entry per key and sequence number, there is only one such entry |
| `Lsm.BeginEstablishes` | CSources/leveldb/db/db_impl.cc:892-910 | A compaction that starts fixes its inputs, its smallest snapshot and its version so that the facts its end relies on hold |
| `Lsm.UnpickedIsNewer` | CSources/leveldb/db/version_set.cc:1386-1398 | Files of the input level left out of a compaction hold, for keys they share with it, only newer entries |
| `Lsm.UnpickedIsSeparated` | CSources/leveldb/db/version_set.cc:1386-1398 | Files of the output level left out lie wholly to one side of everything merged |
| `Lsm.FinishKeepsLevels` | CSources/leveldb/db/db_impl.cc:874-890 | Replacing a compaction's inputs by tables cut from its entries, clear of what stays at the output level, leaves levels 1 and deeper disjoint and every shallower entry newer |
| `Lsm.FlushKeepsLevels` | CSources/leveldb/db/db_impl.cc:505-547 | Installing a flushed memtable at the level it was given keeps the same facts |
| `Lsm.FlushKeepsRunning` | CSources/leveldb/db/db_impl.cc:921-933 | A flush in the middle of a compaction leaves what the compaction relies on intact, provided that what lands at the output level has everything kept on one side of it |
| `Lsm.WriteKeepsInv` | CSources/leveldb/db/db_impl.cc:1200-1270 | A write keeps the invariant of the whole database |
| `Lsm.RotateKeepsInv` | CSources/leveldb/db/db_impl.cc:1325-1385 | Making the memtable immutable keeps it |
| `Lsm.FlushKeepsInv` | CSources/leveldb/db/db_impl.cc:549-580 | Flushing the immutable memtable keeps it, whatever file numbers were taken meanwhile |
| `Lsm.FinishKeepsInv` | CSources/leveldb/db/db_impl.cc:874-890 | Finishing a compaction keeps it |
| `Lsm.MoveKeepsInv` | CSources/leveldb/db/db_impl.cc:732-747 | A trivial move of one file to the next level keeps it |
| `Lsm.BeginKeepsInv` | CSources/leveldb/db/db_impl.cc:892-910 | Starting a compaction keeps it |
| `Lsm.SnapshotsKeepInv` | CSources/leveldb/db/snapshot.h:40-90 | Taking and releasing snapshots keep it |
| `Lsm.SnapshotsAfter` | CSources/leveldb/db/snapshot.h:56-86 | Taking a snapshot adds the last sequence at the end of the list, a release takes out the one named and leaves the others in their order, and no other step touches the list |
| `Lsm.BegunAtOldest` | CSources/leveldb/db/db_impl.cc:905-910 | A compaction that starts keeps as its smallest snapshot the oldest one held, or the last sequence if none is |
| `Lsm.WrittenEntries` | CSources/leveldb/db/db_impl.cc:1218-1252 | A write adds to the memtable one entry for each operation, operation i at the last sequence plus i plus one, and nothing else |
| `Lsm.StepKeepsInv` | CSources/leveldb/db/db_impl.cc:702-760 | Every step of the state machine keeps it: levels 1 and deeper sorted and disjoint, shallower entries newer, level 0 ordered by file number, memtables newest |
| `SnapshotReads.KeptNewest` | CSources/leveldb/db/db_impl.cc:951-978 | Over the merged entries alone, the drop rules change no read at or after the smallest snapshot, but for reading a deletion as absence |
| `SnapshotReads.MergedRead` | CSources/leveldb/db/db_impl.cc:951-978 | Inputs joined with everything outside them read the same after the drop rules at or after the smallest snapshot, or else some dropped deletion exposes an older value outside |
| `SnapshotReads.ExposedRead` | CSources/leveldb/db/db_impl.cc:964-974 | Where a dropped deletion covered a value outside the merge, a read at that sequence turns from absent to that value |
| `SnapshotReads.CompactionKeepsReadsAtIff` | CSources/leveldb/db/db_impl.cc:921-1014 | At each sequence from the smallest snapshot on, a compaction preserves every read if and only if it exposes no value in that way there |
| `SnapshotReads.CompactionKeepsReadsIff` | CSources/leveldb/db/db_impl.cc:921-1014 | A compaction preserves every read at every sequence from the smallest snapshot on if and only if it exposes no value in that way at the smallest |
| `SnapshotReads.ClosedExposesNothing` | CSources/leveldb/db/version_set.cc:1361-1384 | If no file beyond the output level's inputs starts with the user key an input ends with, nothing is exposed |
| `SnapshotReads.ClosedCompactionKeepsReads` | CSources/leveldb/db/db_impl.cc:921-1014 | With inputs closed in that way at the output level, the newest visible entry of every key is unchanged when inputs are replaced by the kept outputs |
| `SnapshotReads.StepKeepsClosed` | CSources/leveldb/db/db_impl.cc:921-933 | A compaction begun with its output level closed in that way finds it closed when it finishes, whatever is flushed meanwhile |
| `SnapshotReads.StepKeepsReadsIff` | CSources/leveldb/db/snapshot.h:15-90 | A step, writes included, changes something that a snapshot between the oldest live one and the present reads if and only if it finishes a compaction that exposes a value there |
| `SnapshotReads.BackgroundInvisibleIff` | CSources/leveldb/db/db_impl.cc:702-760 | A flush, move, compaction or snapshot changes nothing that the present reads, if and only if it does not finish a compaction that exposes a value there |
| `SnapshotReads.WriteIsRead` | CSources/leveldb/db/write_batch.cc:118-137 | After a batch a read gives the batch's last operation on the key, and otherwise what it gave before |
| `SnapshotReads.RunInv` | CSources/leveldb/db/db_impl.cc:702-760 | The invariant holds at every point of every run from the empty database |
| `SnapshotReads.FinishEntries` | CSources/leveldb/db/db_impl.cc:874-890 | When a compaction finishes, the entries it kept take the place of its inputs', and every other entry of the database stays |
| `SnapshotReads.SameEntriesSteps` | CSources/leveldb/db/db_impl.cc:702-760 | Every step but a write and the end of a compaction leaves the entries of the database as they are |
| `SnapshotReads.HeldIsListed` | CSources/leveldb/db/snapshot.h:56-86 | A snapshot that the run's actions have taken and not released is in the list, with the sequence it was taken at |
| `SnapshotReads.SnapshotIsolationIff` | CSources/leveldb/db/db_impl.cc:1181-1189 | Over every run, a snapshot reads, from the step that takes it to any step before the run's actions release it, what was current when it was taken, if and only if no compaction that finishes meanwhile exposes a value at it |
| `SnapshotReads.ClosedRunIsolates` | CSources/leveldb/db/db_impl.cc:1181-1189 | On a run whose compactions are begun with their output level closed, every snapshot reads what was current when it was taken for as long as it is held |
| `Resurrection.DeletedValueReturns` | CSources/leveldb/db/version_set.cc:1386-1398 | A run from the empty database, of flushes, a trivial move and two compactions of level 2 with a table under each, on which, without that closure, a finished compaction makes a deleted key read as its old value again |
| `FlushGap.MidCompactionFlushIff` | CSources/leveldb/db/db_impl.cc:921-933 | In any state with a compaction running, after any flush to its output level that the code's checks allow, every way the compaction can finish leaves that level disjoint if and only if all that it keeps lies on one side of the flushed file |
| `FlushGap.FlushIntoTheGap` | CSources/leveldb/db/version_set.cc:470-495 | A state reached from the empty database in which the checks allow such a flush between what is kept, and a finish after which two files of level 2 overlap |
| `VersionSet.FindFile` | CSources/leveldb/db/version_set.cc:87-105 | Binary search finds the first file whose largest key is not below the target |
| `VersionSet.SomeFileOverlapsRange` | CSources/leveldb/db/version_set.cc:121-156 | The sorted and the unsorted search both answer whether any file meets the user-key range |
| `VersionSet.GetOverlappingInputs` | CSources/leveldb/db/version_set.cc:498-538 | The restarting loop ends, with just the files meeting the range, and in level 0 with the least set also closed under overlap among files; in the order of the level, none twice |
| `VersionSet.FilterKeepsOrder` | CSources/leveldb/db/version_set.cc:498-538 | The files of a sorted level that meet a range come in the order of the level |
| `VersionSet.FindLargestKey` | CSources/leveldb/db/version_set.cc:1309-1323 | The greatest largest key of the files, if there are any |
| `VersionSet.FindSmallestBoundaryFile` | CSources/leveldb/db/version_set.cc:1327-1344 | The least file continuing the user key, if there is one |
| `VersionSet.AddBoundaryInputs` | CSources/leveldb/db/version_set.cc:1361-1384 | The loop ends with no file of the level left that starts with the largest chosen user key, and has added only files that lie in every set holding the choice and, with each file, the first that continues its last user key; a closed choice is left alone |
| `VersionSet.GetRange` | CSources/leveldb/db/version_set.cc:1188-1208 | The least and the greatest key of the files |
| `VersionSet.SelectionIsValid` | CSources/leveldb/db/version_set.cc:1386-1398 | A choice closed at its level, with the files of the next level that meet its hull, meets every condition the state machine puts on a compaction |
| `VersionSet.SetupOtherInputs` | CSources/leveldb/db/version_set.cc:1386-1445 | The inputs are valid for a compaction: the choice with its boundary files and no others, with exactly the files of the next level that meet its hull; the choice is replaced by all that the hull of both brings in, and no more than that, if and only if that is more files, within the size limit, and meets no further file of the next level; the pointer is the largest input key |
| `VersionSet.PickCompaction` | CSources/leveldb/db/version_set.cc:1253-1305 | The choice starts from the file due for its seeks or the first past the compaction pointer, around to the first of all; it lies in every set that holds this file, what meets a file of the set in level 0, and the file that continues each one's last user key; it is completed as any choice is, and valid |
| `VersionSet.CompactRange` | CSources/leveldb/db/version_set.cc:1447-1478 | A manual choice is empty only if nothing meets the range; in level 0 it is the least set closed under overlap that holds what meets the range, deeper the first of these, in order, that bring it to the size limit; it is completed as any choice is, and valid |
| `VersionSet.PickLevelForMemTableOutput` | CSources/leveldb/db/version_set.cc:470-495 | The deepest level up to 2 reachable without overlap, and without too much overlap two levels down |
| `VersionSet.PickedLevelIsApart` | CSources/leveldb/db/version_set.cc:470-495 | At the level picked and above, no file's user keys meet those of the flushed file |
| `PointReads.TableGetIsNewest` | CSources/leveldb/db/memtable.cc:101-135 | Seeking (key, snapshot) in a sorted table gives the newest visible entry of the key in it |
| `PointReads.Level0Get` | CSources/leveldb/db/version_set.cc:281-302 | Searching level 0 newest file first and stopping at the first hit gives the newest visible entry of the level |
| `PointReads.SortedLevelGet` | CSources/leveldb/db/version_set.cc:304-322 | One binary-searched file decides for a sorted level |
| `PointReads.OneFileDecides` | CSources/leveldb/db/version_set.cc:309-320 | No other file of the level can hold a visible entry of the key when that one does not, nor a newer one when it does |
| `PointReads.VersionGet` | CSources/leveldb/db/version_set.cc:324-400 | Stopping at the first level with a hit gives the newest visible entry over all levels |
| `PointReads.Get` | CSources/leveldb/db/db_impl.cc:1115-1160 | Searching mem, imm, then the version, and stopping at the first hit, returns the value of the entry of greatest sequence not past the snapshot over everything, or nothing if that is a deletion |
| `CompactionWork.HiddenIsLocal` | CSources/leveldb/db/db_impl.cc:951-963 | Comparing with just the entry before, as rule (A) does, is being hidden by some newer entry at or below the smallest snapshot |
| `CompactionWork.KeptIff` | CSources/leveldb/db/db_impl.cc:951-978 | An entry survives the drop rules if and only if it is the newest visible one of its key at some sequence from the smallest snapshot on, and is not a deletion no newer than that whose key lies in no file's range two levels down or deeper |
| `CompactionWork.CompactionState.IsBaseLevelForKey` | CSources/leveldb/db/version_set.cc:1516-1535 | With pointers that only advance, the answer for keys asked in order is whether no deeper file's range holds the key |
| `CompactionWork.ShouldDrop` | CSources/leveldb/db/db_impl.cc:961-975 | The loop's rules drop exactly the entries that are hidden or obsolete |
| `CompactionWork.DoCompactionWork` | CSources/leveldb/db/db_impl.cc:921-1014 | The loop writes, in order, exactly the entries that are the newest visible one of their key at some sequence from the smallest snapshot on, but for deletions at or below it that cover nothing deeper; the outputs are cut exactly where a cut is asked for, and none is empty |
| `CompactionWork.OutputsAreInstallable` | CSources/leveldb/db/db_impl.cc:825-872 | The outputs as files, with any increasing numbers, hold exactly what the loop wrote, sorted and disjoint |
| `CompactionWork.WorkIsAFinish` | CSources/leveldb/db/db_impl.cc:800-890 | What the loop writes is a way for the state machine's compaction to finish, whatever numbers flushes have taken in between |
| `VersionBuilder.SaveTo` | CSources/leveldb/db/version_set.cc:672-700 | The level saved is the old files and the added ones merged, an old one first where they tie, less the deleted |
| `VersionBuilder.SavedTied` | CSources/leveldb/db/version_set.cc:672-714 | At each place in the order a saved level holds the base's files of it and then the added ones, or nothing if the number is marked deleted |
| `VersionBuilder.SavedInOrder` | CSources/leveldb/db/version_set.cc:672-714 | A saved level is in order, files of one place next to each other |
| `VersionBuilder.SavedWithoutTies` | CSources/leveldb/db/version_set.cc:672-714 | In strict order if no old file ties with an added one |
| `VersionBuilder.SameTies` | CSources/leveldb/db/version_set.cc:572-584 | Two lists in order that hold the same files at every place are the same list |
| `VersionBuilder.InsertTied` | CSources/leveldb/db/version_set.cc:586-586 | Inserting keeps the set in strict order and adds the file exactly when none has its place |
| `VersionBuilder.OrderedDisjointIsSorted` | CSources/leveldb/db/version_set.cc:700-714 | Ordered by smallest key, files without overlap form a level that binary search may use |
| `VersionBuilder.SavedLevelIsInstalled` | CSources/leveldb/db/db_impl.cc:874-890 | A compaction's edit applied and saved gives, level by level, the files the state machine installs |
| `VersionBuilder.Apply` | CSources/leveldb/db/version_set.cc:629-669 | Applying an edit marks its deletions, then unmarks the number of each added file and adds it to the set, which refuses it if a file tied in smallest key and number is there |
| `VersionBuilder.FoldStepIff` | CSources/leveldb/db/version_set.cc:629-671 | One more edit in the builder saves to the same list as one more save if and only if, of the files whose number it adds, no base file is marked deleted, and each one added before is, if marked, the one coming in, and otherwise gets nothing added at its place |
| `VersionBuilder.FoldedIsOneByOneIff` | CSources/leveldb/db/version_set.cc:566-568 | A manifest's edits folded in one builder and saved give at every point the list that saving after each gives, if and only if no edit reuses a number in that way |
| `VersionBuilder.AddedOnceIsNoReuse` | CSources/leveldb/db/version_set.cc:566-568 | In particular when no number is added to the level twice, or added when the base has it: then both end with the same list |
| `VersionBuilder.FoldStepLosesNothingIff` | CSources/leveldb/db/version_set.cc:629-671 | An edit in the builder loses no file that an edit after a save would keep, if and only if each file it brings in whose place is taken is the one there, or the base has it |
| `VersionBuilder.FoldedLosesNothingIff` | CSources/leveldb/db/version_set.cc:629-671 | Folding a manifest's edits loses at no point a file that saving one by one keeps, if and only if no edit's file is shut out in that way |
| `VersionBuilder.AddedTwiceComesBack` | CSources/leveldb/db/version_set.cc:666-668 | An input on which folding differs: a base file's number deleted and added again brings the old file back beside the new, be it the same |
| `VersionBuilder.TiedAddIsLost` | CSources/leveldb/db/version_set.cc:586-668 | Another: of two files added at one place folding keeps the first, saving one by one both |
| `VersionBuilder.DeletedAddReturns` | CSources/leveldb/db/version_set.cc:586-668 | Another: added, deleted and added as another file at its place, folding keeps the first, saving one by one the second |
| `DbIter.MapIsTheDatabase` | CSources/leveldb/db/db_iter.cc:34-46 | The pairs the iterator is to show are, in key order, exactly the keys a get at its sequence finds, with their values |
| `DbIter.CurrentIsNewest` | CSources/leveldb/db/db_iter.cc:177-207 | A position the iterator stops at holds the newest visible entry of its key |
| `DbIter.Cursor.GetKey` | CSources/leveldb/db/db_iter.cc:64-67 | The key shown, in either direction, is the map's at the cursor's place |
| `DbIter.Cursor.GetValue` | CSources/leveldb/db/db_iter.cc:68-71 | So is the value |
| `DbIter.Cursor.FindNextUserEntry` | CSources/leveldb/db/db_iter.cc:177-207 | Skips nothing visible and stops at the next key whose newest visible entry is a value |
| `DbIter.Cursor.FindPrevUserEntry` | CSources/leveldb/db/db_iter.cc:236-276 | Leaves the nearest earlier visible key saved, or nothing if there is none |
| `DbIter.Cursor.Next` | CSources/leveldb/db/db_iter.cc:141-175 | From either direction, on to the next pair of the map, or off its end |
| `DbIter.Cursor.Prev` | CSources/leveldb/db/db_iter.cc:209-234 | From either direction, back to the pair before, or off the front |
| `DbIter.Cursor.Seek` | CSources/leveldb/db/db_iter.cc:278-290 | Lands on the first pair of the map whose key is not below the target: all before it are below, and none is there only if all are |
| `DbIter.Cursor.SeekToFirst` | CSources/leveldb/db/db_iter.cc:292-301 | Lands on the first pair of the map |
| `DbIter.Cursor.SeekToLast` | CSources/leveldb/db/db_iter.cc:303-308 | Lands on the last pair of the map |
| `DbIter.RestsBeforeKeyIff` | CSources/leveldb/db/db_iter.cc:41-46 | Moving backwards, the inner iterator rests just before the entries of the current key if and only if there is nothing before them or the entry there is visible |
| `DbIter.RestFurtherLeft` | CSources/leveldb/db/db_iter.cc:41-46 | On a key overwritten after the iterator's sequence, seeking to the last key leaves the inner iterator further left than that |
| `DbIter.ShownFollows` | CSources/leveldb/db/db_iter.cc:64-76 | What a plain cursor shows: one item for each move, the list's at the place the move has led to from the place before |
| `DbIter.Drive` | CSources/leveldb/db/db_iter.cc:141-308 | Any sequence of moves, direction switches included, shows what a plain cursor over the map shows |
| `Iteration.AddIterators` | CSources/leveldb/db/version_set.cc:229-245 | The files of level 0 one by one and each deeper level as one list, with the memtables, are sorted lists that hold the whole database and share no key |
| `Iteration.NewInternalIterator` | CSources/leveldb/db/db_impl.cc:1077-1102 | The merging iterator over these is one over all the entries of the database in order |
| `Iteration.ContentsExist` | CSources/leveldb/db/db_iter.cc:34-46 | At every sequence such a list of keys and values exists, and by its order is the only one |
| `Iteration.Iterate` | CSources/leveldb/db/db_impl.cc:1163-1176 | An iterator opened on any state of the database at any sequence and moved in any way shows what a plain cursor shows over the keys and values that point reads give there |
| `Merger.LeastWaiting` | CSources/leveldb/table/merger.cc:148-161 | With every child cut at a rank, the least key waiting is the next of the union |
| `Merger.GreatestPassed` | CSources/leveldb/table/merger.cc:163-176 | The greatest key passed is the one before |
| `Merger.MergePartitions` | CSources/leveldb/table/merger.cc:31-60 | Lists without a common key partition the ranks of their sorted union |
| `Merger.MergingIterator.FindSmallest` | CSources/leveldb/table/merger.cc:148-161 | Finds the child that stands at the next entry of the union |
| `Merger.MergingIterator.FindLargest` | CSources/leveldb/table/merger.cc:163-176 | Finds the child that stands at the entry before |
| `Merger.MergingIterator.SeekToFirst` | CSources/leveldb/table/merger.cc:31-37 | Moves as a cursor over the sorted union of the children |
| `Merger.MergingIterator.SeekToLast` | CSources/leveldb/table/merger.cc:39-45 | Moves as a cursor over the sorted union of the children |
| `Merger.MergingIterator.Seek` | CSources/leveldb/table/merger.cc:47-53 | Lands where the target splits the union |
| `Merger.MergingIterator.Next` | CSources/leveldb/table/merger.cc:55-79 | Moves, from either direction, as a cursor over the union |
| `Merger.MergingIterator.Prev` | CSources/leveldb/table/merger.cc:81-108 | Moves, from either direction, as a cursor over the union |
| `TwoLevel.TwoLevelIterator.SkipEmptyDataBlocksForward` | CSources/leveldb/table/two_level_iterator.cc:115-126 | Crossing empty blocks forwards stays at the same place of the concatenation |
| `TwoLevel.TwoLevelIterator.SkipEmptyDataBlocksBackward` | CSources/leveldb/table/two_level_iterator.cc:128-139 | Crossing empty blocks backwards comes to the entry just before |
| `TwoLevel.TwoLevelIterator.Seek` | CSources/leveldb/table/two_level_iterator.cc:82-87 | Lands on the first entry of the concatenation not below the target, empty blocks or not |
| `TwoLevel.TwoLevelIterator.SeekToFirst` | CSources/leveldb/table/two_level_iterator.cc:89-94 | Moves as a cursor over the concatenated blocks |
| `TwoLevel.TwoLevelIterator.SeekToLast` | CSources/leveldb/table/two_level_iterator.cc:96-101 | Moves as a cursor over the concatenated blocks |
| `TwoLevel.TwoLevelIterator.Next` | CSources/leveldb/table/two_level_iterator.cc:103-107 | Moves as a cursor over the concatenated blocks |
| `TwoLevel.TwoLevelIterator.Prev` | CSources/leveldb/table/two_level_iterator.cc:109-113 | Moves as a cursor over the concatenated blocks |
| `TwoLevel.TwoLevelIterator.ValidIsInside` | CSources/leveldb/table/two_level_iterator.cc:31-40 | It is valid exactly when its place in the concatenation is not the end, and then shows the entry there |
| `TwoLevel.TableIsRanged` | CSources/leveldb/table/table.cc:208-212 | The index of every finished table is one this iterator may use |
| `Separators.LessTotal` | CSources/leveldb/util/comparator.cc:27-29 | The bytewise order is total |
| `Separators.FindShortestSeparator` | CSources/leveldb/util/comparator.cc:31-52 | The start cut after the first byte that differs from the limit's, that byte raised by one, if it has room below the limit's, and otherwise the start; so the start, or no longer than it and strictly between the two |
| `Separators.FindShortSuccessor` | CSources/leveldb/util/comparator.cc:54-66 | The key cut after its first byte that is not 0xff, raised by one; the key itself just when it is all 0xff, and otherwise no longer and strictly above |
| `Separators.FindShortestInternalSeparator` | CSources/leveldb/db/dbformat.cc:65-82 | The start with its user key cut in that way and the earliest tag, if that makes the user key shorter, and otherwise the start itself; in order it lies from the start on and below the limit |
| `Separators.FindShortInternalSuccessor` | CSources/leveldb/db/dbformat.cc:84-97 | The key with its user key cut in that way and the earliest tag, if that makes it shorter, and otherwise the key itself; never below the key |
| `Table.TableBuilder.Add` | CSources/leveldb/table/table_builder.cc:94-123 | The table holds the entries in order; the open block is written just when it is full; each index key is the block's last key shortened against the next block's first, so not below its block and, unless it is that last key, of a user key strictly between |
| `Table.TableBuilder.Flush` | CSources/leveldb/table/table_builder.cc:125-139 | A block is written, its index entry waiting for the next key, and the filter's builder is told where the next block begins |
| `Table.TableBuilder.Finish` | CSources/leveldb/table/table_builder.cc:198-240 | The open block is written, all entries are in the blocks, every block is indexed, the last by the short successor of its last key, and the filter block is that of the blocks' keys and offsets |
| `Table.InternalGet` | CSources/leveldb/table/table.cc:214-242 | Searching one block finds the first entry of the whole table at or past k whenever that has k's user key, and nothing of that user key otherwise, with the table's filter or without |
| `Table.AskFilter` | CSources/leveldb/table/table.cc:222-227 | The filter block made from the blocks denies no user key at the offset of a block that has it |
| `Table.BuildAndGet` | CSources/leveldb/table/table_builder.cc:94-240 | For any entries in order, cut into blocks anywhere, with any filter policy or none, the table built and asked for k gives the entry that the list of entries gives |
| `Table.NotInBlock` | CSources/leveldb/table/table.cc:214-242 | When k lies past a block but not past its index key, the next entry has another user key |
| `Block.BlockBuilder.Add` | CSources/leveldb/table/block_builder.cc:71-105 | Appends three lengths, the rest of the key and the value: a restart point, noted by its offset, every interval entries and with its whole key, any other without all that it has in common with the key before |
| `Block.BlockBuilder.Finish` | CSources/leveldb/table/block_builder.cc:61-69 | The restart offsets and their number follow |
| `Block.DecodeEntry` | CSources/leveldb/table/block.cc:55-75 | The one-byte fast path and the varint path both read back the three lengths, the key bytes and the value |
| `Block.RestartIsThere` | CSources/leveldb/table/block.cc:100-103 | Restart word r of a built block is the offset of entry interval times r |
| `Block.BlockIter.ParseNextKey` | CSources/leveldb/table/block.cc:250-277 | From the end of one entry, the next one's full key and value, or the end |
| `Block.BlockIter.FindRestart` | CSources/leveldb/table/block.cc:187-209 | The binary search narrows to the last restart below the target |
| `Block.BlockIter.Next` | CSources/leveldb/table/block.cc:138-141 | One entry on, or off the end |
| `Block.BlockIter.Prev` | CSources/leveldb/table/block.cc:143-162 | One entry back, from any state, or off the end from the first |
| `Block.BlockIter.Seek` | CSources/leveldb/table/block.cc:164-227 | Lands on the first entry not below the target, from any state, using its place when that is before the target: all before it are below |
| `Block.BlockIter.SeekToFirst` | CSources/leveldb/table/block.cc:229-232 | Lands on the first entry |
| `Block.BlockIter.SeekToLast` | CSources/leveldb/table/block.cc:234-239 | Lands on the last entry |
| `Block.BuildAndMove` | CSources/leveldb/table/block_builder.cc:61-105 | For every interval and strictly increasing keys, a cursor on the built bytes, moved in any way, shows the entry where a plain cursor would be |
| `Coding.ByteRoundTrip` | CSources/leveldb/util/coding.h:54-62 | A byte holds its number |
| `Coding.NumberIs` | CSources/leveldb/util/coding.h:54-62 | The number a byte holds is its value |
| `Coding.FixedDigit` | CSources/leveldb/util/coding.h:54-77 | Byte i of a fixed-width number is its digit i to base 256 |
| `Coding.FixedRoundTrip` | CSources/leveldb/util/coding.h:81-106 | Fixed-width numbers come back |
| `Coding.EncodeVarint32` | CSources/leveldb/util/coding.cc:21-47 | The five cases write the number seven bits a byte |
| `Coding.EncodeVarint64` | CSources/leveldb/util/coding.cc:55-64 | So does the loop |
| `Coding.VarintDigit` | CSources/leveldb/util/coding.cc:21-64 | Byte i of a varint is digit i to base 128, with the top bit set on each but the last |
| `Coding.VarintShortest` | CSources/leveldb/util/coding.cc:21-64 | A varint has as many bytes as the number has digits to base 128, and one for 0 |
| `Coding.GetVarintPtr` | CSources/leveldb/util/coding.cc:86-131 | The decoding loop, for both widths, malformed input and bits past the width included |
| `Coding.VarintEnds` | CSources/leveldb/util/coding.cc:86-131 | Decoding takes bytes up to the first below 128, and fails just when there is none, or it comes too late for the width |
| `Coding.VarintRoundTrip` | CSources/leveldb/util/coding.cc:86-131 | A number that fits comes back whatever follows it |
| `Coding.VarintDecodes` | CSources/leveldb/util/coding.cc:104-143 | The same from the first byte, for 32 and 64 bits |
| `Coding.SliceRoundTrip` | CSources/leveldb/util/coding.cc:155-164 | A length-prefixed string comes back, with what follows it |
| `LogFormat.Writer.AddRecord` | CSources/leveldb/db/log_writer.cc:34-80 | Appends the record as it is laid out at the file's length, which alone decides where its fragments are cut |
| `LogFormat.EmittedPieces` | CSources/leveldb/db/log_format.h:14-33 | A record at any file offset is cut into fragments whose bytes together are the record's, one after the other, none across the end of a block of 32768 bytes, each but the last filling its block, of type 1 alone and otherwise 2, 3 and 4; fewer than seven zeros come first where a block has no room for a header |
| `LogFormat.PhysicalParts` | CSources/leveldb/db/log_writer.cc:82-108 | A fragment is the masked checksum of its type and bytes, low byte first, its length in two bytes, low byte first, its type in one, and its bytes |
| `LogFormat.Writer.EmitPhysicalRecord` | CSources/leveldb/db/log_writer.cc:82-108 | Header, checksum and payload of one fragment |
| `LogFormat.WriteReopened` | CSources/leveldb/db/log_writer.cc:27-30 | A writer reopened on an intact file goes on as the first would have |
| `LogFormat.WrittenPasses` | CSources/leveldb/db/log_reader.cc:241-256 | The reader's checksum test passes every fragment written |
| `LogFormat.PassesOnlyWritten` | CSources/leveldb/db/log_reader.cc:241-256 | And passes only bytes that the writer would have written for that type and payload |
| `LogFormat.Reader.ReadPhysicalRecord` | CSources/leveldb/db/log_reader.cc:189-271 | On any file, with checksums on, a fragment handed out is byte for byte one the writer writes; on a file cut from a log it is the next fragment, or the end if the record is not all there, and nothing is reported |
| `LogFormat.Reader.ReadRecord` | CSources/leveldb/db/log_reader.cc:56-174 | On a file cut from a log, the next record if it is all there, and otherwise the end; nothing is reported |
| `LogFormat.ReadAll` | CSources/leveldb/db/log_reader.cc:56-271 | For any records and any byte at which the file is cut, exactly the records whose last fragment is wholly in it, in order, and no corruption |
| `WriteBatch.ParseOfRecords` | CSources/leveldb/db/write_batch.cc:42-80 | Operations written are the operations read, whatever follows |
| `WriteBatch.ParseReads` | CSources/leveldb/db/write_batch.cc:42-80 | On any bytes, operations parsed are records of tag 1 with a key and a value or tag 0 with a key, up to the end or something that is neither |
| `WriteBatch.Iterate` | CSources/leveldb/db/write_batch.cc:42-80 | The operations before the end or the first thing malformed, and which error it is |
| `WriteBatch.WriteBatch.Add` | CSources/leveldb/db/write_batch.cc:98-109 | Put and Delete add one operation at the end and one to the count |
| `WriteBatch.WriteBatch.Append` | CSources/leveldb/db/write_batch.cc:144-148 | Append concatenates the operations and keeps the sequence number |
| `WriteBatch.WriteBatch.SetSequence` | CSources/leveldb/db/write_batch.cc:94-96 | Only the sequence number changes |
| `WriteBatch.InsertInto` | CSources/leveldb/db/write_batch.cc:115-137 | Operation i of the batch, up to the first thing malformed, enters the memtable with the batch's sequence number plus i, behind what was there, and the status says what was malformed, or that the count was wrong |
| `WriteBatch.RecoverLogFile` | CSources/leveldb/db/db_impl.cc:423-465 | Replaying a log of groups cut at any byte puts in the tables of memtables grown full and the last memtable exactly the operations of its whole groups, in order, each at its group's number plus its index, and gives the greatest of these numbers, with no error |
| `VersionEdit.BytesParse` | CSources/leveldb/db/version_edit.cc:105-205 | What is written is read, item by item |
| `VersionEdit.TagNumbers` | CSources/leveldb/db/version_edit.cc:14-24 | Which number marks which field |
| `VersionEdit.FieldsHold` | CSources/leveldb/db/version_edit.cc:105-205 | After items are read into an edit each field is the last one said, or what it was if none is; pointers and new files are those said, in order, behind the old ones, and deleted files are the old and the said |
| `VersionEdit.ParsedIsWritable` | CSources/leveldb/db/version_edit.cc:43-103 | Whatever the bytes, an item that is read is one that could be written |
| `VersionEdit.ItemsRebuild` | CSources/leveldb/db/version_edit.cc:26-39 | What an edit says rebuilds it over a cleared one, behind the compaction pointers that Clear leaves |
| `VersionEdit.VersionEdit.EncodeTo` | CSources/leveldb/db/version_edit.cc:41-84 | The record holds everything the edit says, in order |
| `VersionEdit.VersionEdit.DecodeFrom` | CSources/leveldb/db/version_edit.cc:105-205 | On any bytes, an edit in which each field is the last one said up to the end or the first thing malformed, and whether there was one |
| `VersionEdit.EncodeThenDecode` | CSources/leveldb/db/version_edit.cc:26-205 | Decoding undoes encoding if and only if the edit decoded into held no compaction pointers; otherwise those stay in front |
| `SkipList.LinkKeepsChain` | CSources/leveldb/db/skiplist.h:361-367 | One store of a link leaves the level's chain sorted, with the new node in its place |
| `SkipList.ReaderUndisturbed` | CSources/leveldb/db/skiplist.h:336-368 | A search's position stays good over every store of an insertion |
| `SkipList.ReaderStep` | CSources/leveldb/db/skiplist.h:260-281 | One load moves a search right or down, or ends it between the last node below the target and the first at or past it as of that load |
| `SkipList.InterleavedSearch` | CSources/leveldb/db/skiplist.h:260-302 | A search whose loads fall anywhere among the stores of insertions ends between the last node below the target and the first at or past it in the bottom chain as of its last load, both for the search forwards and for the one behind Prev |
| `SkipList.SearchReturns` | CSources/leveldb/db/skiplist.h:260-281 | And it returns once it has made as many loads as there are levels and nodes ahead of it |
| `SkipList.SearchIsLinearizable` | CSources/leveldb/db/skiplist.h:260-302 | The same from the head at any height: the result was right at a moment between start and end, and there is one after as many loads as nodes and levels |
| `SkipList.LastIsLinearizable` | CSources/leveldb/db/skiplist.h:304-322 | The search behind SeekToLast, its loads among any stores, gives the last node of the bottom chain as of its last load, and returns after as many loads as nodes and levels |
| `SkipList.SkipList.FindGreaterOrEqual` | CSources/leveldb/db/skiplist.h:260-281 | The least key not below the target, with the node before it at every level |
| `SkipList.SkipList.FindLessThan` | CSources/leveldb/db/skiplist.h:283-302 | The last node below the key |
| `SkipList.SkipList.FindLast` | CSources/leveldb/db/skiplist.h:304-322 | The last node of the list |
| `SkipList.SkipList.Insert` | CSources/leveldb/db/skiplist.h:336-368 | A new node with the key is on every level below its height, the only one to come, and on none above; it is put there one store to the memory at a time, and between any two stores every level is a sorted part of the one below |
| `SkipList.HistoriesJoin` | CSources/leveldb/db/skiplist.h:336-368 | The stores of one insertion and those of the next are one history, good at every moment |
| `SkipList.SkipList.Contains` | CSources/leveldb/db/skiplist.h:370-378 | Whether the key is in the list |
| `SkipList.Iterator.Next` | CSources/leveldb/db/skiplist.h:206-210 | To the next node of the bottom chain |
| `SkipList.Iterator.Prev` | CSources/leveldb/db/skiplist.h:212-221 | To the node before, by searching from the head |
| `SkipList.Iterator.Seek` | CSources/leveldb/db/skiplist.h:223-226 | To the least key not below the target |
| `SkipList.Iterator.SeekToFirst` | CSources/leveldb/db/skiplist.h:228-231 | To the first node, if any |
| `SkipList.Iterator.SeekToLast` | CSources/leveldb/db/skiplist.h:233-239 | To the last node, if any |
| `Cache.HandleTable.FindPointer` | CSources/leveldb/util/cache.cc:112-121 | The slot of the entry with the key, or the free one at the bucket's end if there is none |
| `Cache.HandleTable.Insert` | CSources/leveldb/util/cache.cc:79-93 | The entry takes the place of the one with its key, if any; the table is resized just when it has come to have more entries than buckets |
| `Cache.HandleTable.Remove` | CSources/leveldb/util/cache.cc:95-103 | The entry with the key leaves the table, and no other |
| `Cache.HandleTable.Resize` | CSources/leveldb/util/cache.cc:123-147 | Every entry is filed anew, in no fewer buckets than entries and, but for the smallest table, fewer than twice as many |
| `Cache.LruRemove` | CSources/leveldb/util/cache.cc:240-243 | The ring closes over the entry |
| `Cache.LruAppend` | CSources/leveldb/util/cache.cc:245-251 | The entry becomes the ring's newest |
| `Cache.LRUCache.Ref` | CSources/leveldb/util/cache.cc:218-224 | An idle entry of the cache becomes a used one; all invariants hold |
| `Cache.LRUCache.Unref` | CSources/leveldb/util/cache.cc:226-238 | The last reference deletes, the last of the clients' makes the entry the newest idle one; all invariants hold |
| `Cache.LRUCache.Lookup` | CSources/leveldb/util/cache.cc:253-260 | The entry with the key, referenced once more for the client, or nothing if there is none |
| `Cache.LRUCache.Release` | CSources/leveldb/util/cache.cc:262-265 | The client's reference goes; the entry is deleted just when nobody else has it |
| `Cache.LRUCache.FinishErase` | CSources/leveldb/util/cache.cc:308-317 | The entry leaves its ring and its charge the usage |
| `Cache.LRUCache.Insert` | CSources/leveldb/util/cache.cc:267-304 | The entry replaces the one with its key, and idle entries go, oldest first, until usage is within capacity or none is idle; with one fewer gone the charges left would be over capacity |
| `Cache.LRUCache.Erase` | CSources/leveldb/util/cache.cc:319-322 | Just the entry with the key leaves the cache |
| `Cache.LRUCache.Prune` | CSources/leveldb/util/cache.cc:324-334 | All idle entries leave, used ones stay |
| `Cache.LRUCache.DeletedWhenGone` | CSources/leveldb/util/cache.cc:24-41 | In every valid state an entry is on the idle ring just when the cache alone refers to it and on the other just when clients do too, and has been deleted once if neither does, never before |
| `GroupCommit.BuildBatchGroup` | CSources/leveldb/db/db_impl.cc:1275-1321 | The group's operations are the batches' in order; sizes stay within the first batch's plus 128 KB if that has 128 KB or less, and 1 MB otherwise; no sync write rides behind a leader that is not; and the writer left behind would break one of the two |
| `GroupCommit.GroupIsDetermined` | CSources/leveldb/db/db_impl.cc:1275-1321 | A leader can make only one such group |
| `GroupCommit.StepKeepsInv` | CSources/leveldb/db/db_impl.cc:1200-1385 | Every step of every writer, switches of the log and flushes included, keeps logs, memtables, queue and sequence numbers in agreement |
| `GroupCommit.RunInv` | CSources/leveldb/db/db_impl.cc:1200-1270 | So do all interleavings, from the start |
| `GroupCommit.RangesApart` | CSources/leveldb/db/db_impl.cc:1218-1222 | Writers' sequence numbers are consecutive and disjoint, in queue order |
| `GroupCommit.BatchesAreAtomic` | CSources/leveldb/db/db_impl.cc:1218-1252 | A reader at the last sequence sees every operation of a batch that has left the queue, at its own number, and none of any other batch |
| `GroupCommit.OnlyBatchesAreSeen` | CSources/leveldb/db/db_impl.cc:1218-1252 | It sees nothing else |
| `GroupCommit.ReplayIsQueueOrder` | CSources/leveldb/db/db_impl.cc:1224-1240 | Every record of a log holds operations of the queue, with the numbers they had |
| `GroupCommit.SyncedSurvives` | CSources/leveldb/db/db_impl.cc:1226-1240 | What a sync write that has returned wrote comes back from every crash, at its numbers |
| `GroupCommit.CrashLeavesFirstPartIff` | CSources/leveldb/db/db_impl.cc:1365-1385 | Every crash leaves a first part of the records written if and only if each log file before the last record's is flushed or wholly synced, which a switch of logs does not see to |
| `GroupCommit.LaterSyncOutlives` | CSources/leveldb/db/db_impl.cc:1365-1385 | A run on which a crash may keep a sync write and lose an earlier write to the log before |
| `Crc32c.BitsLinear` | CSources/leveldb/util/crc32c.cc:276-377 | Dividing out zeros distributes over exclusive or |
| `Crc32c.TableStep` | CSources/leveldb/util/crc32c.cc:286-291 | A byte-table step divides out a zero byte |
| `Crc32c.ByteTable` | CSources/leveldb/util/crc32c.cc:20-63 | The byte table's entries for a single bit are the literal ones, and by linearity so are all; the checksum of nothing is 0 |
| `Crc32c.StrideIsZeros` | CSources/leveldb/util/crc32c.cc:293-300 | Four stride-table look-ups extend a word by sixteen zero bytes |
| `Crc32c.WordRemainder` | CSources/leveldb/util/crc32c.cc:313-320 | Four bytes at once are four bytes one after the other |
| `Crc32c.Rotate` | CSources/leveldb/util/crc32c.cc:349-357 | A stride on the oldest of the four streams, which then change places, consumes one more word of what they jointly stand for |
| `Crc32c.Extend` | CSources/leveldb/util/crc32c.cc:276-377 | For every length, alignment and initial value the interleaved loop computes CRC32C as defined a bit at a time |
| `Crc32c.ExtendChains` | CSources/leveldb/util/crc32c.h:14-17 | Extending over a and then b is extending over both |
| `Crc32c.MaskRoundTrip` | CSources/leveldb/util/crc32c.h:22-39 | Masking and unmasking undo each other; the mask of 0 is the constant |
| `Crc32c.BurstIsDetected` | CSources/leveldb/util/crc32c.h:14-17 | Damage confined to four neighbouring bytes always changes the checksum |
| `Bloom.CreateFilter` | CSources/leveldb/util/bloom.cc:28-54 | The bits set are exactly those the keys' probes fall on, in the least number of bytes for the bits per key, at least eight, and the number of probes follows |
| `Bloom.ProbeIs` | CSources/leveldb/util/bloom.cc:42-53 | Probe j of a key is its hash plus j times the rotated hash, to 32 bits |
| `Bloom.DeltaRotates` | CSources/leveldb/util/bloom.cc:47-47 | The rotated hash is 32 bits wide, and fifteen more bits of rotation give the hash back |
| `Bloom.MatchIff` | CSources/leveldb/util/bloom.cc:28-82 | A filter made from keys matches a key if and only if each of its probes falls on a bit that some probe of theirs falls on |
| `Bloom.KeyMayMatch` | CSources/leveldb/util/bloom.cc:56-80 | No for a filter of fewer than two bytes; yes for one of another kind; otherwise yes just when every probe's bit is set |
| `Bloom.KeysMatch` | CSources/leveldb/util/bloom.cc:28-82 | No key of a filter is denied by it, for every number of bits per key |
| `FilterBlock.FilterBlockBuilder.StartBlock` | CSources/leveldb/table/filter_block.cc:21-27 | Filters are made up to the one of the offset: the first of the pending keys, the others empty |
| `FilterBlock.FilterBlockBuilder.GenerateFilter` | CSources/leveldb/table/filter_block.cc:51-75 | The pending keys make the next filter, an empty one if there are none |
| `FilterBlock.FilterBlockBuilder.Finish` | CSources/leveldb/table/filter_block.cc:35-49 | Pending keys get a last filter; the filters, their offsets and where those begin follow one another |
| `FilterBlock.FilterBlockReader.KeyMayMatch` | CSources/leveldb/table/filter_block.cc:90-104 | The answer of the offset's filter, or yes if there is none; reads stay within the block, whatever it holds |
| `FilterBlock.BuildAndAsk` | CSources/leveldb/table/filter_block.cc:21-104 | For every sequence of block offsets, a key added to a block is never denied at the block's offset |

## Left out

- Swift, Objective-C and C wrappers, the environment, file names, loggers, options, `repair.cc`, statistics, and `GetProperty`: delegation, I/O or easy claims.
- I/O errors, and corruption handling in compaction, iterators and tables; the log reader and the decoders of batches and edits do model malformed input.
- `Finalize`'s scores, seek charges, read sampling, `ShouldStopBefore` thresholds and file sizes: free choices in the model.
- `LogAndApply`, `VersionSet::Recover` and the manifest file as a file; `MakeRoomForWrite`'s delays; error propagation among grouped writers.
- `SnapshotList` as a linked ring: the state machine keeps the sequence numbers in a list, and the oldest is the first.
- The memtable's encoding in the arena, and the reference counts of versions and memtables.
- `Lsm.StepKeepsInv`: a flush to a running compaction's output level between entries that it keeps is not a step, see above.
- `Lsm.FlushKeepsRunning`: leaves out the same flush, which `FlushGap.MidCompactionFlushIff` shows to be exactly the harmful one.
- `Lsm.FlushKeepsInv`: leaves out the same flush.
- `SnapshotReads.RunInv`: leaves out runs with the same flush, as the other theorems over runs do.
- `Iteration.Iterate`: the iterator's lists are those of the moment it is opened, so entries that a memtable gets later, all past its sequence, do not pass under it.
- `Merger.MergingIterator.Next`: assumes, as holds for a database's sources, that no internal key occurs in two children; `Prev` and the seeks do too.
- `VersionSet.PickCompaction`: the level, and the file when one is due for its seeks, are given.
- `Crc32c.Extend`: the five tables are the values their steps need, computed, not the literal numbers; the accelerated path is not modelled.
- `LogFormat.Reader.ReadRecord`: `initial_offset` is 0, as it is wherever the database opens a log, so resynchronising and `LastRecordOffset` are not modelled.
- `WriteBatch.RecoverLogFile`: the records are read first and replayed then; when a memtable is full is given, and reusing the last log is not modelled.
- `Block.BlockIter.Seek`: blocks are ones the builder made, so the branches for corrupt entries are absent; so it is for the other moves.
- `Table.InternalGet`: a block's handle is its number, its offset kept beside it; the bytes of blocks, compression, the block cache and the footer are not modelled.
- `Table.BuildAndGet`: says nothing of a table whose filter block is four gigabytes or more; the sizes of blocks in the file are given.
- `Cache.LRUCache.Insert`: one shard, its mutex always held; a bucket is found by remainder, which for a length that is a power of two is the source's mask.
- `Cache.LRUCache.Erase`: the destructor of the shard is not modelled.
- `FilterBlock.BuildAndAsk`: holds for blocks below four gigabytes, whose offsets fit their 32 bits; keys are user keys, the internal policy's stripping of the tag is not modelled.
- `SkipList.SkipList.Insert`: the random height is a parameter, and a node's address is its number.
- `GroupCommit.StepKeepsInv`: of `MakeRoomForWrite` only the switch of logs is here; a file keeps the records synced and any number after them.
