# RepoDB in Dafny

RepoDB is a versioned SQL store. Its tables are content-addressed Prolly trees in Git commits; work between commits
goes to a journal of typed row edits; transactions read a tree, the journal's pending edits and their own edits, one
over the other. This project models the parts of that design whose correctness does not show in any one function,
and proves the properties the rest of the store relies on:

- **Canonical trees** (`Chunking`, `Prolly`, `ProllyLevels`, `TreeShape`, `EditMerge`, `ProllyApply`, `ProllyBuilder`). `Build`, the
  streaming builder and the incremental `Apply` give the same tree for the same entries, so a root hash depends on the
  entry map alone. Greedy chunking starts over at every cut; that is what makes the incremental form right. A node is a
  datatype, so equality of nodes stands for equality of hashes, and the boundary hash is any function of the key.
- **Reads** (`ProllyReads`, `ProllyIterators`, `Pending`, `PendingIteration`, `PendingCursor`, `ScanOrder`, `Scan`,
  `MergedScan`, `TableScan`). Point reads, counts, and iterators in both directions agree with the entry list; a set of
  pending edits is a persistent map; a merged scan yields the visible rows of its intervals, each once, in order, and what
  it yields when rows are materialised or edited between its steps is said exactly.
- **The journal** (`JournalFrames`, `JournalPayloads`, `Replay`, `ReplayMeaning`, `LazyReplay`, `ResumedReplay`, `WorkingState`, `Recovery`,
  `JournalRuns`). A byte file of frames, cut anywhere by a crash; lazy replay from a cached view; commits, checkpoints and
  compaction by several processes; recovery of a transaction's outcome, over every run of the bytes.
- **Concurrency control** (`WriteLog`, `FirstCommitter`, `Commuting`, `UniqueRuns`, `UniqueExact`, `StaleCache`, `DatabaseRuns`). First
  committer wins, exactly, and what that means for unique indexes when every transaction checks uniqueness against its own
  snapshot: through one index first, then for any processes on any tables and indexes.
- **Secondary indexes** (`IndexAgreement`, `IndexKeys`, `IndexOverlays`, `TableEditor`, `IndexDerivation`, `IndexCheckpoint`,
  `IndexTrees`). Index entries follow the visible rows through every operation, the undo of a failed statement and the
  incremental checkpoint.
- **Keys and ranges** (`BigEndian`, `ByteOrder`, `FloatKeys`, `DecimalKeys`, `TextKeys`, `KeyCodec`, `KeyIntervals`,
  `Ranges`). Byte order of keys is SQL order of values, and a range is exactly one interval of keys.
- **Merge** (`RowMerge`, `RowMergeSpec`), **codecs** (`Varints`, `RowCells`, `RowCodec`, `RowProjection`, `NodeCodec`) and
  **validation** (`Validation`, `ValidTrees`, `ValidationCache`, `ValidationWalk`).

`Bytes`, `Sequences`, `Sorting` and `Overlays` hold what these share: the byte order, sorted sequences and the maps they
stand for, and edits laid over a map.

## Where the code does less than it says

Nine properties do not hold on all inputs. The model keeps the code as it is; each has a lemma or a contract that says
exactly when the property holds.

- `Apply` reads `links[0]` of an empty list when an edit list empties a tree through the early exit, which is when the
  last edit's key is not above the last entry's (`common/prolly/tree.go:218-220`). Contract of `ProllyApply.Apply`; input
  in `ProllyApply.DeletingTheOnlyEntryEmptiesEarly`.
- With `MinChunkEntries` 1, which `validate` admits (`common/prolly/tree.go:801-809`), the level loop ends exactly when no
  key but the last is a boundary. `ProllyLevels.LevelLoopEnds` and `ProllyLevels.LevelLoopCanRunForever`; for the streaming
  builder `ProllyBuilder.CascadeSettles`. The methods return `Endless` or `Stuck` where the code would not return.
- The writer of a frame accepts payloads that its reader refuses, those over 2^30 bytes or empty, and truncates the
  length of those over 2^32 (`common/repository/working.go:1140-1180`, `common/repository/working.go:1290-1293`). A frame is read
  back if and only if its payload fits: `JournalFrames.FrameReadable`; a transaction with one large row whose journal is
  unreadable: `JournalPayloads.HugeRowUnreadable`.
- `CommitTypedEdits` writes a transaction with no edits, which replay then calls corrupt
  (`common/repository/working.go:1040-1044`). `ResumedReplay.PairReplays`: once its prepare is in the file, the journal loads
  if and only if there are edits.
- A checkpoint appended behind a prepare left alone makes the journal unreadable; only the commit methods cut such a tail
  (`common/repository/working.go:1074-1077`). `ResumedReplay.CheckpointNeedsCleanTail`; for the bytes, and with the compaction
  that may follow, `WorkingState.CheckpointReads`.
- A scan by primary key looks at the materialised rows anew at every `Next`, but collects their keys only when it is made
  (`engine/ranges.go:498-519`). If another reader of the table materialises them in between, as the first lookup by an index
  that is not persisted does (`engine/catalog.go:2314-2336`), all rows still to come are lost. The scan is complete exactly
  if rows were materialised before it, or never, or not before it had yielded all: `TableScan.ScanAmid`; a join of a table
  with itself that loses a row is `TableScan.SelfJoinLosesARow`.
- A failed `Insert` has already put its key into the indexes before the one that refused it; without
  `DiscardChanges` an entry leads to no row (`engine/catalog.go:1941-1958`). `IndexOverlays.FailedInsertAgrees`.
- `rebaseIndexViews` lays a rebased transaction's removals over the cached index edits even where the transaction removed
  only what it had put itself (`engine/catalog.go:342-355`). If another commit put the same key in between, the cache loses
  that entry, and a third transaction can then commit a second row under one unique key. The cached view is right exactly
  when no such entry is missed: `UniqueRuns.RebasedViewAgrees`; the run that loses uniqueness is `StaleCache.UniquenessLost`;
  without such commits uniqueness holds over every run: `UniqueRuns.RunsStayUnique`, `DatabaseRuns.DatabaseStaysUnique`; and the first such commit has a continuation
  that loses it, so that a commit is safe exactly if it misses nothing: `UniqueExact.SafeIffQuiet`.
- The incremental checkpoint refuses only a key that two edited rows take (`engine/engine.go:722-742`). Where one edited row
  takes the key of a row that keeps it, an index tree without the latter is published, and a rebuild would refuse the rows.
  `IndexTrees.CheckpointIndex` says exactly when; the input is `StaleCache.CheckpointMissesIt`.

## Model

| member | source | states |
|---|---|---|
| `Chunking.Chunk` | common/prolly/tree.go:856-869 | the chunk loop divides the list into groups within the bounds that end where the hash bits of a key say, and nowhere else |
| `Chunking.ChunksShaped` | common/prolly/tree.go:851-869 | groups are the chunks of a list if and only if they divide it, none is over the maximum, only the last is under the minimum, one under the maximum that is not the last ends in a key whose low hash bits are zero, and no such key stands inside at the minimum or past it |
| `Chunking.CutsAreLocal` | common/prolly/tree.go:820-829 | behind a key whose low hash bits are zero, with the minimum reached, the groups are the chunks of the rest alone |
| `Chunking.Resynchronise` | common/prolly/tree.go:851-869 | chunking starts over at a cut: chunks of xs ++ ys are those of xs and those of ys when xs ends at a cut |
| `Chunking.ChunkingUnique` | common/prolly/tree.go:851-869 | there is one way to divide a list into groups that close exactly where the rule cuts |
| `Chunking.ChunksAreChunking` | common/prolly/tree.go:851-869 | the chunks are that division and concatenate to the input |
| `Chunking.ChunksSplit` | common/prolly/tree.go:851-869 | leading chunks are closed, and the chunks behind them are the chunking of the rest |
| `Chunking.ChunksShrink` | common/prolly/tree.go:851-869 | n chunks hold at least fanout * (n - 1) + 1 items, and two or more items always make fewer chunks |
| `Prolly.Build` | common/prolly/tree.go:111-162 | refuses exactly invalid options and equal keys, runs forever exactly if its level loop does, and else builds the tree of the sorted entries |
| `Prolly.BuildFromLeafLinks` | common/prolly/tree.go:301-321 | gives the root over the links, fails exactly on no links, and runs forever exactly where no number of passes is enough |
| `ProllyLevels.LevelLoopEnds` | common/prolly/tree.go:140-158 | the level loop reaches one link if and only if the minimum is at least 2 or no inner key is a boundary |
| `ProllyLevels.LevelLoopCanRunForever` | common/prolly/tree.go:801-809 | options that validate and entries on which no number of passes is enough |
| `ProllyLevels.TreeHeight` | common/prolly/tree.go:140-158 | with minimum m at least 2, m^h leaves or fewer give at most h interior levels |
| `TreeShape.TreeShaped` | common/prolly/tree.go:111-162 | on every level of a built tree the entries or links are divided among nodes in that way, and a root has more than one child |
| `TreeShape.CanonicalExactly` | common/prolly/tree.go:111-162 | a tree is the one built of given entries if and only if it holds them, its links are right, and every level has that shape |
| `EditMerge.MergeSorted` | common/prolly/tree.go:186-232 | merging sorted edits into sorted entries gives sorted entries |
| `EditMerge.MergeContents` | common/prolly/tree.go:186-232 | the merged list stands for the old map with the edits laid over it |
| `EditMerge.ContentsDetermine` | common/prolly/tree.go:111-138 | sorted entries are determined by their map |
| `ProllyApply.LeavesOfTree` | common/prolly/tree.go:275-299 | the leaf links of a built tree are those of the chunks of its entries |
| `ProllyApply.LeafChunker.Add` | common/prolly/tree.go:252-259 | an added entry is fed, and cut where chunking all that was fed would cut |
| `ProllyApply.LeafChunker.FlushGroup` | common/prolly/tree.go:261-273 | flushing closes the open group and nothing else |
| `ProllyApply.Apply` | common/prolly/tree.go:164-248 | gives node for node the tree of the edited entries; refuses exactly unordered or empty-keyed edits; crashes exactly when the early exit leaves nothing; runs forever exactly if `Build` would |
| `ProllyApply.ApplyAll` | common/prolly/tree.go:164-248 | a history of edits, each applied to the last tree: all give a tree exactly when every step can, and it is the tree of the entries at the end |
| `ProllyApply.ApplyBoth` | common/prolly/tree.go:164-248 | two histories that both run and reach the same map end in the same root |
| `ProllyApply.DeletingTheOnlyEntryEmptiesEarly` | common/prolly/tree.go:218-220 | an input that crashes |
| `ProllyBuilder.SortedBuilder.Add` | common/prolly/tree.go:336-355 | refuses exactly a key that is not larger and any key after `Finish`, does not return exactly for a key whose leaf is handed up without end, and else keeps the buffers those of all entries fed |
| `ProllyBuilder.SortedBuilder.AddLink` | common/prolly/tree.go:396-406 | a link pushed into a level's buffer cascades as chunking the level's links would |
| `ProllyBuilder.SortedBuilder.Finish` | common/prolly/tree.go:357-384 | gives the tree `Build` gives on the entries fed |
| `ProllyBuilder.CascadeSettles` | common/prolly/tree.go:396-417 | pushing a boundary link upward stops if and only if the minimum is at least 2 or its key is no boundary |
| `ProllyBuilder.FinishAlone` | common/prolly/tree.go:357-384 | a level is the last one exactly when it holds a single link and nothing is buffered above |
| `ProllyReads.TreeHolds` | common/prolly/tree.go:111-162 | a built tree holds exactly its entries, and its links carry their last keys and counts |
| `ProllyReads.Get` | common/prolly/tree.go:748-779 | the value of the key in the entry list, or none |
| `ProllyReads.Count` | common/prolly/tree.go:782-799 | the number of entries |
| `ProllyReads.FindChild` | common/prolly/offsets.go:88-110 | the child that holds the first entry not below a key |
| `ProllyIterators.Iterator.All` | common/prolly/tree.go:431-440 | starts in front of all entries |
| `ProllyIterators.Iterator.From` | common/prolly/tree.go:442-451 | starts in front of the first entry not below the key |
| `ProllyIterators.Iterator.Next` | common/prolly/tree.go:453-485 | yields the entries still to come, one by one |
| `ProllyIterators.ReverseIterator.UpTo` | common/prolly/reverse.go:40-80 | starts behind the last entry below the bound |
| `ProllyIterators.ReverseIterator.Next` | common/prolly/reverse.go:105-141 | yields the entries before the position, last one first |
| `ProllyIterators.SeekSplits` | common/prolly/reverse.go:48-80 | the entries from a key on and those below it are all entries, none twice |
| `Pending.MergeRuns` | common/repository/pending.go:84-103 | the union of two sorted runs, the newer winning |
| `Pending.MergedSorted` | common/repository/pending.go:84-103 | that union is sorted without duplicates |
| `Pending.MergedLastOf` | common/repository/pending.go:84-103 | and stands for the older map overlaid with the newer |
| `Pending.PendingRows.With` | common/repository/pending.go:46-82 | a new set that stands for the old one with the last edit of each key and its generation over it; runs stay sorted, distinct, non-empty and tiered |
| `Pending.PendingRows.Get` | common/repository/pending.go:106-115 | the newest edit of the key |
| `Pending.FewRuns` | common/repository/pending.go:46-82 | n runs hold at least 2^n - 1 edits |
| `PendingCursor.PendingIter.Forward` | common/repository/pending.go:118-126 | an iterator over exactly the newest edits in the interval |
| `PendingCursor.PendingIter.Backward` | common/repository/pending.go:128-147 | the same from the far end |
| `PendingCursor.PendingIter.Next` | common/repository/pending.go:149-208 | yields them in order, in either direction, each once |
| `PendingIteration.BestHead` | common/repository/pending.go:149-179 | the smallest head, from the newest run holding it, is the next edit of the merged view |
| `PendingIteration.BestEnd` | common/repository/pending.go:181-208 | the greatest end likewise |
| `WriteLog.SharedLog.Record` | common/repository/writelog.go:34-51 | recording in place gives the recorded log |
| `WriteLog.WriteConflict` | common/repository/writelog.go:55-90 | the loops decide the conflict of the specification |
| `FirstCommitter.ConflictExact` | common/repository/writelog.go:55-90 | a transaction is refused if and only if its snapshot is none of this base's generations or some later commit clashes with it in rows, claims or schema |
| `FirstCommitter.RefusedExactly` | common/repository/writelog.go:55-90 | refused if and only if the snapshot is none of this base's generations or an edit committed since changes the schema of a table, a row or a claimed key that the transaction touches too |
| `FirstCommitter.FirstCommitterWins` | common/repository/writelog.go:34-90 | over every run: admitted exactly if no transaction clashes with one committed between its snapshot and its commit |
| `FirstCommitter.ExtendedLogOnlyAdds` | common/repository/writelog.go:34-51 | a log a later load extended never hides a conflict |
| `Commuting.TransactionsCommute` | common/repository/writelog.go:55-90 | transactions that do not clash commute: tables, schemas and pending rows are the same in either order |
| `Commuting.RowEditsExactly` | common/repository/writelog.go:55-90 | row edits of two generations commute if and only if they are of different tables or rows |
| `Commuting.AdmittedAsOnSnapshot` | common/repository/working.go:503-562 | an admitted transaction applied behind the commits since its snapshot gives what it gives applied to the snapshot with them after it |
| `BigEndian.RoundTrip` | common/repository/journal_compact.go:27-38 | fixed-width integers are read back |
| `ByteOrder.IntegersAhead` | engine/keycodec.go:78-90 | byte order of fixed-width integers is their order, whatever follows |
| `ByteOrder.ComparesAs` | engine/keycodec.go:19-20 | strings that one encoding decides compare by it, and by what follows only if it is equal |
| `ByteOrder.InvertedReverses` | engine/keycodec.go:263-275 | inverting every byte reverses the order |
| `JournalFrames.FrameReadable` | common/repository/working.go:1256-1317 | a written frame is read back if and only if its payload is neither empty nor over the limit; one over it reads as corrupt |
| `JournalFrames.FrameLayout` | common/repository/working.go:1158-1163 | the letters RDBJ, the payload's length and checksum most significant byte first, and the payload |
| `JournalFrames.TornFrame` | common/repository/working.go:1277-1300 | a frame cut short reads as the end of the file |
| `JournalFrames.ReadFile` | common/repository/working.go:1256-1317 | whole frames are read and a torn tail is not |
| `JournalFrames.CutAnywhere` | common/repository/working.go:1256-1317 | a file cut at any byte is the frames wholly before the cut and a torn one |
| `JournalFrames.ReadJournalFrames` | common/repository/working.go:1256-1317 | refuses exactly a file with another first header than the cached one; else, from an offset, exactly the readable records, and where each ends |
| `JournalPayloads.SomeCodecFits` | common/repository/working.go:1150-1168 | for every journal there is an encoding that reads back all records and fits those of the journal |
| `JournalPayloads.HugeRowUnreadable` | common/repository/working.go:1290-1293 | an encoding and a transaction with one row whose written journal reads as corrupt |
| `Replay.ApplyTypedEdits` | common/repository/working.go:565-624 | the loop over copied maps applies the edits of the specification |
| `Replay.RowsPartAfter` | common/repository/working.go:565-624 | the rows the conflict check reads follow the commits as its specification says |
| `Replay.TableAfter` | common/repository/working.go:580-601 | a table's schema root is the last schema given since its last drop, or the one it had; its data root is the one it had, and none after a drop; it is gone if nothing of that is left |
| `Replay.PendingAfter` | common/repository/working.go:587-601 | so for the pending schema; nothing is pending for a table dropped last |
| `Replay.RowAfter` | common/repository/working.go:594-603 | a row's pending edit is its last one since the last drop, with this generation, or the one it had |
| `Replay.Untouched` | common/repository/working.go:565-603 | a table no edit names is as it was |
| `ReplayMeaning.ReplaysExactly` | common/repository/working.go:1020-1088 | a journal replays if and only if every record is in its place: complete prepares; markers behind an open prepare, of the next generation, on the base there is or with nothing changed; checkpoints of the generation there is with no prepare open |
| `ReplayMeaning.LoadsExactly` | common/repository/working.go:1089-1138 | it loads if and only if it replays and changes that rest on another base than the head come to the head's tables; the view counts the commits and is dirty exactly if something was committed on the head since the last checkpoint |
| `ReplayMeaning.StartsFrom` | common/repository/working.go:946-970 | replay starts from the base of the first prepare that names one, or from the head |
| `ReplayMeaning.StartsAt` | common/repository/journal_compact.go:40-66 | and counts commits from the generation of an anchor, or from 0 |
| `ReplayMeaning.CommitShows` | common/repository/working.go:552-624 | a commit makes the next generation on the same base, with every table's roots and pending rows as its edits say |
| `ReplayMeaning.ManifestShows` | common/repository/working.go:1000-1019 | a commit of a whole manifest shows its tables, with nothing pending |
| `ReplayMeaning.WritesFollow` | common/repository/working.go:552-624 | the log and the pending rows of a view after commits are those the conflict check is exact about |
| `ReplayMeaning.CheckExact` | common/repository/working.go:511-533 | so on such a view a transaction is refused if and only if its snapshot is none of this base's generations or a later commit clashes with it |
| `Replay.ResumeEqualsFull` | common/repository/working.go:896-1119 | resuming from a view loaded at any clean cut equals replaying everything |
| `Replay.CompactionInvisible` | common/repository/journal_compact.go:48-106 | an anchor followed by later frames loads as the old journal followed by them |
| `LazyReplay.LazyRefines` | common/repository/working.go:1022-1088 | one record of the lazy loop is one record of eager replay |
| `LazyReplay.DeferOne` | common/repository/working.go:972-1019 | deferring a committed transaction and materialising later is applying it |
| `LazyReplay.TailIsInert` | common/repository/working.go:1020-1088 | records behind the last commit or checkpoint change nothing of the view |
| `LazyReplay.TidyPrepares` | common/repository/working.go:1020-1073 | with prepares committed at once, only a last prepare is ever open |
| `ResumedReplay.Materialize` | common/repository/working.go:1000-1019 | the loop over deferred transactions gives the materialised view |
| `ResumedReplay.ReplayFrames` | common/repository/working.go:1020-1088 | the frame loop fails exactly where replay fails, ends in its view, and finds where the safe part ends |
| `ResumedReplay.FinishReplay` | common/repository/working.go:1089-1119 | reconciling before a clean base is loaded equals reconciling the loaded view |
| `ResumedReplay.ReplayFile` | common/repository/working.go:896-1119 | from a cached view or from nothing, a view of another file put aside: what replaying the whole file gives |
| `ResumedReplay.ResumeIsLoad` | common/repository/working.go:1089-1096 | taking the base for the head of a dirty resumed view changes nothing |
| `ResumedReplay.CoversNow` | common/repository/working.go:1020-1119 | the safe part is a clean cut whose view is the whole file's |
| `ResumedReplay.PairReplays` | common/repository/working.go:527-556 | after part of a transaction the journal is orderly, and loads with the transaction if and only if its commit marker is there |
| `ResumedReplay.CommitLands` | common/repository/working.go:534-556 | the same for bytes cut anywhere |
| `ResumedReplay.WholeCommitCovers` | common/repository/working.go:552-556 | the live view a committer keeps is what a load of the new file gives |
| `ResumedReplay.CheckpointLands` | common/repository/working.go:800-815 | a checkpoint behind a clean tail loads as the clean published base at the same generation |
| `ResumedReplay.CheckpointNeedsCleanTail` | common/repository/working.go:1074-1087 | a journal with a checkpoint appended loads if and only if no prepare is open |
| `WorkingState.WorkingState.Load` | common/repository/working.go:896-1119 | whatever is cached, of this file or of one it replaced, the view of replaying the whole file, and a cache that fits it |
| `WorkingState.WorkingState.CommitTypedEdits` | common/repository/working.go:503-562 | refuses exactly corrupt journals, foreign bases and conflicts, leaving the file alone; else cuts the tail, appends, and reports the view a load gives; after a crash the transaction shows if and only if its marker is whole |
| `WorkingState.WorkingState.CheckpointPrepared` | common/repository/working.go:771-815 | publishes exactly a dirty view, and says what the file then is: the checkpoint behind all that was there, or, if a compaction follows and can read that, the anchor alone, which loads as the clean new base |
| `WorkingState.CheckpointReads` | common/repository/working.go:800-815 | behind whole frames, the journal loads as the clean new base if and only if it was compacted or no prepare was left open |
| `WorkingState.WorkingState.Replace` | common/repository/journal_compact.go:48-128 | a journal that can be read becomes the anchor alone, which loads as the checkpoint did, in a file of any inode number; any other stays |
| `WorkingState.LiveView` | common/repository/working.go:552-556 | the view made without replay is the commit applied |
| `WorkingState.OthersStayValid` | common/repository/working.go:637-646 | what one process cuts and appends leaves the cache of every other right |
| `WorkingState.ReplacedIsNoticed` | common/repository/working.go:905-922 | after a compaction every other cache is right, unless inode number, length and checksum of the first frame all are those of its own file |
| `Recovery.GenerationRoundTrip` | common/repository/journal_compact.go:133-148 | a transaction identifier tells its generation, whatever its random part |
| `Recovery.Compact` | common/repository/journal_compact.go:53-66 | the anchor lists every commit of the journal and where the retained history starts |
| `Recovery.CommitTxsAre` | common/repository/journal_compact.go:58-62 | exactly the transactions with a commit marker are listed |
| `Recovery.RecoverTransaction` | common/repository/working.go:649-687 | the scan over the records decides the outcome of the specification |
| `Recovery.RecoveryIsTruthful` | common/repository/journal_compact.go:154-172 | over every run of commits, crashes, checkpoints and compactions, every transaction begun since the last compaction but one is answered committed or rejected, as it is; an older one so or unknown |
| `Recovery.RecoveryIsFinal` | common/repository/working.go:649-687 | no later answer contradicts an earlier one |
| `JournalRuns.CommitIsStep` | common/repository/working.go:534-556 | what a commit does to the file, cut at any byte, is a step of that history |
| `JournalRuns.PublishIsStep` | common/repository/working.go:800-815 | so is what a checkpoint does, compacted or not |
| `JournalRuns.CommitTakes` | common/repository/working.go:503-562 | any process's commit refuses and leaves the file alone, or is such a change, with its marker whole exactly if it did not crash |
| `JournalRuns.CheckpointTakes` | common/repository/working.go:771-815 | any process's checkpoint leaves the file alone or is such a change, unless it strands an open prepare or a torn frame |
| `JournalRuns.RecoverFromFile` | common/repository/working.go:649-687 | the outcome from the bytes, exactly if they can be read |
| `JournalRuns.AnswersAreTrue` | common/repository/working.go:649-687 | over every run of the file, by any processes and with crashes at any byte, it can be read, and the answer is true: committed only if the marker was written whole, rejected only if not, and one of the two for all tried since the last compaction but one |
| `IndexAgreement.AgreeingIsUnique` | engine/catalog.go:2282-2310 | rows have at most one index that agrees with them |
| `IndexAgreement.InsertAgrees` | engine/catalog.go:1921-1960 | putting a free key for a new row keeps agreement |
| `IndexAgreement.PutAgreesOnlyIfFree` | engine/catalog.go:1941-1952 | a put keeps agreement if and only if its key was not taken |
| `IndexAgreement.DeleteAgrees` | engine/catalog.go:1962-1989 | removing the stored row's key keeps agreement |
| `IndexAgreement.UpdateAgrees` | engine/catalog.go:1991-2060 | the edits of an update keep agreement, with or without a change of either key |
| `IndexKeys.EncodedKeysQualify` | engine/catalog.go:2286-2310 | keys of `encodeIndexKey` separate rows, are shared by rows that agree in a unique index, and are never empty: what the index results ask of a definition |
| `IndexOverlays.Overlay.Get` | engine/catalog.go:232-239 | the last own edit of a key, else the shared one |
| `IndexOverlays.BlockedExactly` | engine/catalog.go:1935-1952 | an inserted row is blocked by the first unique index that holds its key, where the key has no NULL, and by nothing else |
| `IndexOverlays.MoveBlockedExactly` | engine/catalog.go:2020-2056 | an updated one by the first of these where its key changes |
| `IndexOverlays.MovesOnly` | engine/catalog.go:2020-2056 | an update removes a key exactly if it changes, and puts one exactly if it or the primary key does |
| `IndexOverlays.InsertKeepsAgreement` | engine/catalog.go:1921-1960 | an unblocked insert keeps every index of the table agreed |
| `IndexOverlays.DeleteKeepsAgreement` | engine/catalog.go:1962-1989 | a delete does |
| `IndexOverlays.UpdateKeepsAgreement` | engine/catalog.go:1991-2060 | an unblocked update does |
| `IndexOverlays.FailedInsertAgrees` | engine/catalog.go:1935-1952 | a refused insert leaves the indexes agreed if and only if the first index refused it |
| `TableEditor.TableState.LookupRow` | engine/catalog.go:905-929 | the visible row |
| `TableEditor.TableState.LookupIndexKey` | engine/catalog.go:2455-2474 | whether the index, overlaid, holds the key |
| `TableEditor.TableState.SetEdit` | engine/catalog.go:931-943 | sets the edit, and the materialised rows follow |
| `TableEditor.TableState.EnsureIndexEdits` | engine/catalog.go:2314-2359 | every index, persisted or not, is brought to agree with the visible rows, and nothing of that counts as the transaction's own |
| `TableEditor.TableState.UniqueClaims` | engine/catalog.go:262-280 | exactly the keys of unique indexes whose last own edit puts them |
| `TableEditor.Editor.Begin` | engine/catalog.go:1869-1883 | a statement starts with nothing remembered and the marks of every overlay |
| `TableEditor.Editor.Insert` | engine/catalog.go:1921-1960 | succeeds exactly for an absent key no unique index holds; says all that changed, refused or not; keeps agreement |
| `TableEditor.Editor.Delete` | engine/catalog.go:1962-1989 | succeeds exactly for a present row; removes it and its stored entries |
| `TableEditor.Editor.Update` | engine/catalog.go:1991-2060 | every case: no key, no change, old row missing, new key taken, refused by an index, done; keeps agreement |
| `TableEditor.Editor.DiscardChanges` | engine/catalog.go:1889-1919 | rows, edits and overlays are exactly as when the statement began |
| `TableEditor.Remembered` | engine/catalog.go:2062-2072 | the first touch of a row remembers what it was at the start of the statement |
| `IndexDerivation.DeriveIndexEdits` | engine/catalog.go:2405-2451 | per index, removals before additions, none for unchanged keys |
| `IndexDerivation.DerivedAre` | engine/catalog.go:2396-2404 | removals exactly of the keys that edited rows leave, then additions exactly of those they take |
| `IndexDerivation.DerivedAgrees` | engine/catalog.go:2396-2451 | over the base index they give the index of the edited rows, unique values moving between rows included |
| `IndexDerivation.DerivedAt` | engine/catalog.go:2402-2404 | under one key an addition wins over a removal |
| `IndexCheckpoint.OrderIndexEdits` | engine/engine.go:726-742 | strictly ordered edits with the last of each key, refused exactly when a key is put twice in a row |
| `IndexCheckpoint.OfStableSort` | engine/engine.go:727 | sorting keeps the order of each key's edits |
| `IndexCheckpoint.DuplicateCaught` | engine/engine.go:722-742 | derived edits are refused if and only if two edited rows take one key |
| `IndexCheckpoint.BrokenByEdits` | engine/engine.go:722-742 | edited rows break an index if and only if two of them take one key or one takes the key of a row that keeps it |
| `IndexTrees.ApplyIndexEdits` | engine/engine.go:677-720 | refuses exactly two edited rows under one key; else the tree of the base index with the derived edits, which is the index of the edited rows if and only if they respect it; none for no rows |
| `IndexTrees.RebuildIndex` | engine/merge.go:455-495 | a tree exactly when rows respect the index, and then the tree of their index |
| `IndexTrees.CheckpointIndex` | engine/engine.go:615-673 | incremental or rebuilt, rows that respect the index lead to one and the same tree; rows that do not are published exactly by the incremental path where an edited row takes a kept key and no two take one |
| `IndexTrees.IndexEntriesUnique` | engine/engine.go:674-676 | there is one entry list for the index of given rows |
| `UniqueRuns.DoIsSound` | engine/catalog.go:1921-2060 | every operation keeps a transaction's own index agreed with the rows it sees |
| `UniqueRuns.PassedIsApart` | common/repository/writelog.go:55-90 | a transaction that passed the check shares no row and no claim with commits since its snapshot |
| `UniqueRuns.KeysAreClaimed` | engine/catalog.go:258-280 | a row has its key since the snapshot, or some commit in between claimed the key |
| `UniqueRuns.CommitStaysDistinct` | engine/catalog.go:258-280 | a commit on later generations leaves no two rows under one key: claims cover what row conflicts miss |
| `UniqueRuns.RebasedViewAgrees` | engine/catalog.go:342-355 | the view cached by a rebased commit is right if and only if the transaction removed no entry that its snapshot lacked and another commit put |
| `UniqueRuns.CachedViewRight` | engine/catalog.go:299-338 | the view any commit caches is right exactly under that condition |
| `UniqueRuns.RunsStayUnique` | engine/catalog.go:293-386 | over every run under that condition, rebased or not, with clean transactions remembering: every generation respects the index and the cache is the index of its generation |
| `StaleCache.UniquenessLost` | engine/catalog.go:342-355 | a run of allowed steps, from no rows, that ends with two rows under one unique key |
| `StaleCache.CheckpointMissesIt` | engine/engine.go:722-742 | two rows under one unique key: unnoticed if one came with the base, refused if both are edits |
| `UniqueExact.LoudLosesUniqueness` | engine/catalog.go:342-355 | after any run of quiet commits, a commit that is not quiet has a continuation of quiet ones that ends with two rows under one unique key |
| `UniqueExact.SafeIffQuiet` | engine/catalog.go:293-386 | a commit is safe in every continuation if and only if it is quiet |
| `DatabaseRuns.SendSeen` | engine/catalog.go:299-355 | a commit that misses no entry, of many tables and indexes, by any process, is seen through each index of each table as a good commit or as none: rows respect the index and the cached view is right |
| `DatabaseRuns.StoredGood` | engine/catalog.go:315-355 | each view a commit stores, its own, carried or rebased, is the index of the rows after it |
| `DatabaseRuns.NextWell` | engine/catalog.go:342-386 | a cached table always has the views of all its indexes, so the cache never drops a table for lack of one |
| `DatabaseRuns.CachedExactly` | engine/catalog.go:299-355 | the tables whose views a commit leaves to the next transaction, exactly |
| `DatabaseRuns.RememberedExactly` | engine/catalog.go:357-386 | those a clean transaction leaves: what it derived, beside what was cached for its generation |
| `DatabaseRuns.DatabaseStaysUnique` | engine/catalog.go:293-386 | over every run without missed entries, of any processes over any tables and indexes, every cached view and every open transaction's view is the index of its rows |
| `DatabaseRuns.GenerationsRespected` | engine/catalog.go:293-386 | and the rows of every generation respect every index |
| `FloatKeys.FloatOrder` | engine/keycodec.go:91-113 | byte order of float keys is numeric order, both zeros equal |
| `FloatKeys.MagnitudeGrows` | engine/keycodec.go:106-113 | larger bits are a larger magnitude, subnormal, normal or infinite |
| `DecimalKeys.AppendDecimalKey` | engine/keycodec.go:245-279 | appends the key of the specification, refused exactly out of exponent range |
| `DecimalKeys.DecimalRefused` | engine/keycodec.go:248-262 | a decimal has no key if and only if it is not zero and its exponent, the point in front of its digits, does not fit 32 bits |
| `DecimalKeys.DecimalOrder` | engine/keycodec.go:239-279 | byte order of decimal keys is numeric order, and equal numbers have one key |
| `DecimalKeys.Normalised` | engine/keycodec.go:239-262 | a decimal is its trimmed digits as a fraction of at least a tenth, scaled by its point |
| `TextKeys.AppendEscaped` | engine/keycodec.go:228-237 | appends the escaped bytes |
| `TextKeys.EscapedOrder` | engine/keycodec.go:225-237 | escaped strings order as the strings, and none is a prefix of another |
| `TextKeys.Utf8AllOrder` | engine/keycodec.go:158-175 | UTF-8 byte order is code point order |
| `TextKeys.KnownUtf8` | engine/keycodec.go:158-175 | characters of one to four bytes |
| `TextKeys.TrimRightDropsSpaces` | engine/keycodec.go:158-175 | what CHAR values compare without is their trailing spaces, all of them and nothing else |
| `TextKeys.WeightBytesOrder` | engine/keycodec.go:176-188 | weight bytes order as the weights, rune by rune |
| `KeyCodec.AppendKeyColumn` | engine/keycodec.go:78-156 | appends the column's key or refuses |
| `KeyCodec.ColumnOrder` | engine/keycodec.go:19-38 | per column: smaller values come ahead whatever follows, equal values have one key, and there is no third case |
| `KeyCodec.KeylessExactly` | engine/keycodec.go:78-156 | a value of the column's type has no key if and only if it is not a number or a decimal out of range |
| `KeyCodec.CellsRefused` | engine/catalog.go:2272-2310 | a composite key is refused if and only if some value has no key, or is NULL in a primary key |
| `KeyCodec.CellsExact` | engine/catalog.go:2272-2310 | composite keys order exactly as their rows, NULL first |
| `KeyCodec.PrimaryKeyOrder` | engine/catalog.go:2272-2284 | so do primary keys |
| `KeyCodec.IndexKeyOrder` | engine/catalog.go:2286-2310 | index keys order by row, then by primary key where it is appended |
| `KeyCodec.IndexKeysSeparate` | engine/catalog.go:2286-2310 | entries of different rows share a key only in a unique index without NULLs |
| `KeyCodec.EncodeIndexKey` | engine/catalog.go:2291-2310 | the loop builds that key and reports NULLs |
| `KeyIntervals.KeyPrefixEnd` | engine/keycodec.go:281-292 | the loop computes the prefix end |
| `KeyIntervals.BelowPrefixEnd` | engine/keycodec.go:281-292 | below a prefix's end are exactly the keys below the prefix and those starting with it, all-0xFF included |
| `KeyIntervals.MergeIntervals` | engine/ranges.go:236-253 | any order sorted by start: the same keys, in ascending intervals with gaps between them |
| `Ranges.RangeShapeSupported` | engine/ranges.go:70-84 | points, then at most one ranged column, then unconstrained ones, and exactly those |
| `Ranges.CutsPart` | engine/ranges.go:177-224 | a cut parts cells in two: NULL first, then the values below, alike and above it |
| `Ranges.RangeRefused` | engine/ranges.go:130-159 | a range is refused only if one of its bounds is a value without a key, and if the first column's lower bound is |
| `Ranges.LowerCutKey` | engine/ranges.go:177-204 | the start key of the specification |
| `Ranges.UpperCutKey` | engine/ranges.go:206-224 | the end key of the specification |
| `Ranges.RangeInterval` | engine/ranges.go:130-159 | the loop over columns computes the interval of the specification |
| `Ranges.RangeExact` | engine/ranges.go:127-233 | a range of the supported shape admits a row's key, whatever follows it, if and only if the row is in range |
| `Ranges.RangeIntervals` | engine/ranges.go:110-125 | merged intervals that hold exactly the keys of all ranges |
| `Ranges.IntervalsExact` | engine/ranges.go:107-125 | a row's key is in them if and only if the row is in one of the ranges |
| `ScanOrder.LayeredHolds` | engine/ranges.go:367-398 | two merged layers hold the upper one's items and the lower one's of other keys |
| `ScanOrder.LayeredOrdered` | engine/ranges.go:367-398 | in scan order, in either direction |
| `Scan.OverlayCursor.Peek` | engine/ranges.go:367-377 | the key of the next change |
| `Scan.OverlayCursor.Advance` | engine/ranges.go:379-398 | the next change of own edits over pending ones, equal keys passed together |
| `Scan.MergedEntries.Next` | engine/ranges.go:450-475 | the next item of the overlay over the tree, cut at the far end of the interval |
| `MergedScan.SortedOverlayKeys` | engine/ranges.go:257-269 | the overlay's keys in the interval, in scan order |
| `TableScan.LayerWalk.Next` | engine/ranges.go:520-561 | the next visible row of the intervals, with own edits as they are at this step; every key to come lies behind it |
| `TableScan.PrimaryRowIter.constructor` | engine/ranges.go:498-507 | set to yield exactly the visible rows of the intervals, in order, materialised or not |
| `TableScan.PrimaryRowIter.Next` | engine/ranges.go:509-561 | the first item of what is ahead as the table state is now, from an interval and behind all yielded |
| `TableScan.PrimaryRowIter.Materialise` | engine/catalog.go:774-815 | rows materialised under a scan that began without cost it all that was ahead, and any other scan nothing |
| `TableScan.PrimaryRowIter.Edit` | engine/ranges.go:351-398 | an own edit under a scan changes what is ahead in that row exactly if its interval is not open yet, or the key had an edit when it was opened and is not passed; with materialised rows, exactly if its key was collected and is not passed |
| `TableScan.ScanAmid` | engine/ranges.go:498-561 | any steps, materialisations and own edits in any order, and then the rest: keys in order, each once; unedited rows only if visible, and all of them if rows are not materialised under it; without edits, as many of the visible rows as were asked for before that, complete exactly if that is all |
| `TableScan.SelfJoin` | engine/ranges.go:509-519 | a row, a lookup by index, and the next row, which is missing exactly if there is none or the lookup materialised rows |
| `TableScan.SelfJoinLosesARow` | engine/catalog.go:2332-2336 | two rows and an index that is not persisted: the second row is visible and never comes |
| `TableScan.PrimaryScan` | engine/ranges.go:482-561 | left alone, exactly the visible rows of the intervals, each once, in order, ascending or descending, materialised or not |
| `TableScan.IndexRowIter.Next` | engine/ranges.go:604-645 | the next entry, of those when the scan was made, whose row is there now, with the row as it is now; none exactly if no entry left has one |
| `TableScan.IndexScan` | engine/ranges.go:593-645 | over an agreeing index, exactly the rows with their key in the intervals, each once, in index order |
| `RowMerge.ConflictIsPairwise` | engine/merge.go:382-408 | a conflict is three versions that differ pairwise and no resolution |
| `RowMerge.RowCursor.Pass` | engine/merge.go:370-378 | the value at a key, and the cursor past it |
| `RowMerge.Cursors.Round` | engine/merge.go:359-417 | one round at the least key is one step of the merge |
| `RowMerge.MergeRows` | engine/merge.go:341-418 | the loop over three iterators computes the streaming merge of the specification |
| `RowMergeSpec.MergeIsPointwise` | engine/merge.go:341-418 | in strictly increasing order, the chosen value of every key and a conflict exactly where versions differ pairwise unresolved |
| `RowMergeSpec.ResolutionsMean` | engine/merge.go:382-416 | at every key the side that changed it, or what both made of it; where all three versions differ the one that the resolution names, none for a deletion, and without a resolution a conflict of the three and no row |
| `RowMergeSpec.RefusedForUnknown` | engine/merge.go:394-408 | refused if and only if three different versions of a key have an unknown resolution |
| `RowMergeSpec.RefusedExactly` | engine/merge.go:394-408 | the merge is refused if and only if some contested key has an unknown resolution |
| `RowMergeSpec.MergeIsSymmetric` | engine/merge.go:341-418 | swapping the sides and their resolutions swaps the conflicts' sides and nothing else |
| `RowMergeSpec.ShortcutsAgree` | engine/merge.go:89-110 | keeping a whole table gives the rows the row merge would give |
| `RowMergeSpec.MergeDefault` | engine/merge.go:43-65 | the name of the side that changed it, or, where all three differ, the one chosen; a conflict exactly without a choice, and a refusal exactly for a deletion or an unknown one |
| `RowMergeSpec.MergeSnapshots` | engine/merge.go:40-160 | the whole merge: stops at a default database in conflict, is refused exactly for an unknown resolution of it or of a contested table or row, and else is table by table what `MergeTable` gives |
| `RowMergeSpec.MergeTable` | engine/merge.go:85-160 | every table-level case, with schema conflicts exactly where versions differ pairwise and are not comparable |
| `Varints.UvarintRoundTrip` | engine/rowcodec.go:335-342 | 64-bit numbers are read back from at most ten bytes |
| `Varints.UvarintLayout` | engine/rowcodec.go:335-342 | groups of seven bits, least significant first, that add up to the number, the high bit set on all bytes but the last |
| `Varints.VarintRoundTrip` | engine/rowcodec.go:326-333 | so are signed ones |
| `RowCells.CellRoundTrip` | engine/rowcodec.go:73-190 | every cell is read back, up to the sign of a decimal zero, whatever follows |
| `RowCells.SkipAsRead` | engine/rowcodec.go:470-500 | whatever can be read is skipped by as many bytes |
| `RowCodec.EncodeRow` | engine/rowcodec.go:52-71 | width, bitmap with bits set in place, cells; refused exactly for a wrong width |
| `RowCodec.BitmapHolds` | engine/rowcodec.go:56-64 | a column's bit is set if and only if its cell is NULL |
| `RowCodec.KnownRow` | engine/rowcodec.go:52-71 | a row in bytes |
| `RowCodec.RowRoundTrip` | engine/rowcodec.go:192-222 | every row of every schema is read back |
| `RowCodec.DecodeRow` | engine/rowcodec.go:192-222 | the decoder reads the row of the specification |
| `RowProjection.NewRowProjection` | engine/rowcodec.go:231-256 | first slots, the last column needed, repeats; nothing to do exactly for the identity |
| `RowProjection.DecodeRowProjected` | engine/rowcodec.go:274-316 | whenever the whole row reads, exactly its projection, in any order, with repeats |
| `NodeCodec.EncodeNode` | common/prolly/codec.go:29-61 | the loop writes the node of the specification |
| `NodeCodec.NodeRoundTrip` | common/prolly/codec.go:172-202 | every node is decoded to what was encoded |
| `NodeCodec.KnownLeaf` | common/prolly/codec.go:29-61 | a leaf in bytes |
| `NodeCodec.ItemsSize` | common/prolly/codec.go:86-90 | the bound on the claimed count never refuses a written node |
| `NodeCodec.ParseNode` | common/prolly/codec.go:172-202 | parses exactly the decodable nodes, and each offset is where its item starts |
| `NodeCodec.OffsetCache.ItemOffsets` | common/prolly/offsets.go:40-77 | cached or parsed, evicting anything, the offsets are right |
| `NodeCodec.OffsetCache.Search` | common/prolly/offsets.go:88-110 | the first item not below the key |
| `Validation.ProvidedSame` | engine/engine.go:158-185 | a store that provides a whole subtree gives it the same verdict and reach |
| `Validation.ValidEverywhere` | common/prolly/tree.go:679-744 | what is valid in one store is valid, with the same count, among all objects |
| `ValidTrees.ValidExactly` | common/prolly/tree.go:679-744 | an object is accepted, with the number of entries below it, if and only if all it leads to is sound: leaves strictly sorted and passing the check of leaves, children's keys strictly ascending, and links counting the entries below them |
| `ValidTrees.BuiltIsValid` | common/prolly/tree.go:631-744 | every built tree, stored node by node, is accepted with its number of entries, and leads to exactly its nodes |
| `ValidationCache.NodeCache.Subtree` | engine/engine.go:161-185 | all of a validated subtree with its counts, exactly if every node of it is known and provided; the nodes looked at count as used |
| `ValidationCache.NodeCache.Remember` | engine/engine.go:187-204 | the node is recorded as used last; kept are the most recently used nodes, the most that fit the bound; none is altered |
| `ValidationWalk.Walker.Walk` | common/prolly/tree.go:679-744 | the count of a valid subtree or a refusal, exactly, and seen grows by what it reaches |
| `ValidationWalk.Validate` | common/prolly/tree.go:631-653 | with any sound cache or none, accepts exactly the roots that lead to sound objects only, and finds exactly these; the cache stays sound |

## Left out

- Integer widths that never bind: levels (8 bits), entry counts and generations (64 bits) and slice positions are unbounded here; row cells, keys, varints and transaction identifiers keep their widths.
- Hash collisions and object storage: a node is its own hash, a store is a map, and reads of it do not fail.
- The JSON text of journal records and CRC-32C: any encoding that reads back and any 32-bit checksum; file locks, fsync levels and group flush are step atomicity.
- The journal file exists from the start.
- WorkingState.WorkingState.CheckpointPrepared: takes the generation the engine read as given, and the publication in Git as one step with the checkpoint record, because a head that moves under a dirty view by itself is `reconcileHead`'s error case, which the model states but does not resolve; whether a checkpoint behind a torn frame can be read depends on the checksum of bytes that never were one frame.
- DatabaseRuns.DatabaseStaysUnique: tables and indexes stay as they are in a run, because schema changes clash as table-level writes in `FirstCommitter`; a statement that fails is undone by `TableEditor.Editor.DiscardChanges` and leaves no step.
- TableScan.LayerWalk.Next: the iterators over the tree and the pending edits are drained when an interval is opened, because nothing changes what they read.
- TableScan.ScanAmid: own edits are made under a scan and not undone, because the scan of a failed statement ends with it.
- IndexTrees.CheckpointIndex: one index at a time, because the loop over indexes only repeats it.
- KeyCodec.AppendKeyColumn: values already are of their column's type and strings are code points, so Go type mismatches and malformed UTF-8 are not errors here; collation tables are any weight function.
- IndexAgreement.InsertAgrees: an index key is any function that separates rows, which `IndexKeys.EncodedKeysQualify` shows of the encoded ones, and its encoding does not fail in the middle of a statement.
- RowMergeSpec.MergeTable: the rows and roots of a table; rebuilding its indexes after a merge is `IndexTrees.RebuildIndex`.
- ValidationCache.NodeCache.Remember: the nodes of one scope, because scopes share only the bound.
- RowCells.CellRoundTrip: no JSON cells, and decimals arrive at the column's scale.
- Node validation implies order within nodes only; reads are stated for built trees.
- `ALTER TABLE`, planning, object inventories, the table-level validation cache, whole-snapshot commits through a writer, sync, conflict files and the command line.
