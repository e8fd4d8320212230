# RFS in Dafny

RFS is a FAT16/FAT32 file system with a write-ahead log of its own. This project
models its core and proves what it promises: that a crash at any moment loses no
cluster, shares none, and gives back the last commit or finishes what was begun.

`dafny verify dfyconfig.toml` checks everything.

## How it is put together

**The table.** `Fat` is the table as a flat list of next-cluster values, with the
walks the driver makes over it; they are proved on arbitrary, even circular,
contents. `Layout` says who owns which cluster: every inode a chain, the unlinked
files still open (the orphans) hanging one behind the other on the end of the log
file. `LayoutOk` is the invariant between the two, and it determines the table
completely. `Orphans` and `Names` prove what each change of the table or of the
names does to it.

**The log.** `Records` and `Batch` are the records and the batches a chunk list is
cut into, `LogRing` the ring of 256 sectors, kept by the class `LogFile` as a
window on an ever growing history. `Undo` proves rollback, `Redo` gives the history
a meaning (`Recover`), and the imperative replay loop of `Replay` is proved to
compute that meaning from the ring.

**A crash.** A record that is written alone is durable before anything it covers is
written, so a crash keeps a prefix of those records and, of the writes made under them,
any subset, torn any way (`Image`, `FreeImage`). The sectors of a batch are written in
one burst, in no order: a crash in it keeps any subset of them (`LogRing.Burst`). A
volume is in one of three phases (`Crash.Phase`): open, with records to undo; batched,
with a batch of chunks in the log; linked, with the record that marks such a batch as
done. `Crash.CrashRecovers` covers all of them, with the first records of a batch at
the end of the log as well. Of the other subsets of a burst `LogRing.BurstReadable`
says what becomes.

**The driver.** The class `Driver.Volume` is the running volume: inodes, segment
list, transaction, pre-allocation window, search position and counters are fields
that its methods update in place, as the source does. `Valid()` says that table,
names, inodes with the short cuts into their chains, segment list, window and count
agree, and that a crash right now is one `CrashRecovers` is about; every method keeps
it. Every single write to the table or a slot is made by `FatSet` or `SlotSet`, and
every record is written by `Log`, `MarkEnd`, `CommitMrc` or, one of a batch at a time, by
`LogBatch`. All of them keep `Journaled()`, the part of `Valid()` that speaks of a crash,
by themselves; inside a batch `LogBatch` keeps `Crashable()`, which is all that
`CrashAndMount` asks for. So a crash between any two writes of any operation is covered,
and `CrashInBurst` adds the bursts whose sectors come to the disk in another order.

**What a crash gives back.** `Outcomes.Contents` is what a user sees: the names, and the
clusters each leads to. `AfterCrash(phase)` is what a crash would give back right now,
`Now()` what there is. The ghost field `outcomes` is set once, before the first step of
an operation, to the contents a crash may give back from then on; `Journaled()` says
that `AfterCrash(phase)` is one of them, and no step of an operation changes the field.
So `outcomes == iset{before, now, after}` in the contract of `Unlink` is atomicity:
whichever write the power fails at, the volume comes back with one of these. `Quiet()`
adds durability: what a crash gives back is what there is. `PowerFails`, `Mount` and
`FillInode` close the circle, and `CrashAndMount` states it in one contract. A replay
that is cut short is covered too: `Replay.Disk` makes each of its writes under
`Confined()`, and `Steps.ReplayStopped` says that the next replay makes up for it.

`State`, `Steps`, `Chunks`, `Freeings`, `Windows`, `Growth`, `Naming`, `Cuttings`,
`Outcomes` and `Mounting` hold the lemmas about values those methods use; `TornFrees`
is about the one sequence of batches no method makes.

**Beside it.** `Lookup` is the block lookup through the two short cuts, used by
`Driver.Volume.Bmap` on inodes. `FatCaches` shows the block cache to be the flat table
of `Fat`, `Bytes`, `Xattr` and `XattrArea` the extended attributes of an inode to be a
finite map, `LongNames`, `ShortNames` and `DosDate` the names and dates of directory
entries; `Marks`, `Arith` and `Results` are shared by several of them.

Constants that `linux/rfs_fs.h` defines are not in the repository. The model takes a
free entry as 0, the first valid cluster as 2, the end mark as the all-ones word
that also stands for "not assigned", 0x40 as the mark of the last piece of a long
name, and 0x00 and 0xE5 as the marks of free slots, as in "FAT32 File System
Specification" version 1.03, sections "FAT Data Structure", "FAT Directory
Structure" and "FAT Long Directory Entries". Reads, writes and memory requests
succeed.

## What does not hold, and when it does

- Rollback is exact if and only if no record of the transaction builds an entry over
  a slot that was live at the last commit (`Undo.RollbackExact`). No record keeps
  what was there. Rename keeps to it because it builds the new name before it
  removes anything (`Undo.BuildsFirst`); the other order ends with two names for one
  chain (`Undo.RemoveFirstCrossLinks`).
- A crash in the burst that writes a batch leaves a log that can be opened again if and
  only if the sectors that came to the disk are the first ones of the batch
  (`LogRing.BurstReadable`). Otherwise the search for the newest record ends in EIO, and
  the volume cannot be mounted, now or later (`Driver.Volume.CrashInBurst`; a batch of two
  with only its second sector on the disk in `LogRing.SecondOnly`). In a log to which
  nothing was ever written before, the volume is taken for one with an empty log as long
  as the first sector is missing.
- A batch that is torn right behind a whole batch of the same type fails in two ways
  (`Redo.RecoverTornBehind` gives the outcome in all cases). Replay counts the records of
  both as one batch as soon as they are as many as the second one says it has: the volume
  is then unmountable unless both signatures are the sum over the records taken (a case
  with two records in the log in `Redo.TornBehindFails`). While they are fewer it passes
  over both, although writes of the first one may be on the disk, and the mount reports
  success. The volume is then consistent if and only if all writes of the first batch are
  on the disk, or none (`TornFrees.PassedOver`); when that batch follows the mark of
  another one of its chain, if and only if none of its clusters was freed yet
  (`TornFrees.PassedOverLinked`). In `TornFrees.HungOnFree` the pool leads to a free cluster.
  Two such batches follow each other when the last file of an unlinked directory is
  deleted and its parent goes in the same transaction (`rfs/inode.c:790-798`), and when an
  attribute chain is freed behind the data. Builds with attributes make the writes of the
  first batch durable in between (`rfs/cluster.c:906`): that meets the condition of
  `PassedOver`, and never that of `PassedOverLinked`. Other builds promise neither. Everywhere
  else a commit or a mark stands between (`Driver.Volume.DeallocChain` asks for it).
- Replacing an attribute marks the old value as deleted before it writes the new
  one. When the new one does not find the clusters it needs, the header write at the
  end overwrites the error code: the call reports success and the attribute is gone.
  `XattrArea.Area.Set` says exactly when, `XattrArea.ReplacementLost` is a case.
- `used_space` is 64 plus the lengths of the used entries except when the very first
  attribute ran out of space half way: it then never counts the header
  (`XattrArea.Area.CreateFirst`, `XattrArea.Area.Set`, a case in
  `XattrArea.HeaderUncounted`).
- A listing of attributes into a buffer that is too small reports a length of 0, not
  an error (`XattrArea.Area.List`, a case in `XattrArea.ListingLost`).
- Fast seek asked for with an odd interval is cut down to an interval of 1, for which
  no point is collected. The call fails exactly when the file's size takes more than
  one cluster (`Lookup.FindPoints`, a case in `Lookup.OddIntervalFails`).
- A burst read leaves block numbers different if and only if no slot behind those it
  takes holds one of the blocks (`FatCaches.FatCache.BurstRead`, a case in
  `FatCaches.BurstTwice`). Counting the clusters at mount meets that, although the
  replay before it went through the same cache (`FatCaches.FatCache.CountUsed`); and
  even where it fails, reads stay right, because the slots share one buffer.
- A name without pieces is built as it should be if and only if no stray piece lies
  right before its slot (`LongNames.Directory.Build`, a case in `LongNames.StrayPiece`).
- A short name comes back from its stored form as it was if and only if it does not
  end in a period (`ShortNames.ConvertToDos`, a case in `ShortNames.PeriodLost`).

## Model

| member | source | states |
|---|---|---|
| `Fat.ChainIsDistinct` | rfs/cluster.c:131-184 | a walk that reaches the end mark has met no cluster twice: a chain with an end is acyclic |
| `Fat.DistinctFits` | rfs/cluster.c:117-131 | pigeonhole: a chain is never longer than the volume has clusters, so the bound of the loop cuts off circular chains only |
| `Fat.FindLastCluster` | rfs/cluster.c:110-207 | on any table whatever, succeeds exactly when a chain starts here and has the expected number of fast-seek points, with its length, its last cluster and the points; anything else is EIO |
| `Fat.PointAt` | rfs/cluster.c:151-170 | point k of a chain is the cluster k intervals from the start |
| `Fat.FindCluster` | rfs/cluster.c:945-989 | hops along a chain, or along a path inside something longer, to the cluster at that position, with what it points at; past the end it is EFAULT |
| `Fat.UsedNext` | rfs/fcache.c:645-671 | one more entry looked at adds one to the clusters in use exactly when it is not free |
| `Chunks.BuildChunkList` | rfs/cluster.c:426-519 | terminates on every table, circular ones included; on a chain it lists exactly the clusters in chain order, every run in one chunk, all of them or as many chunks as a batch has room for, and where the next batch starts; whatever it lists is a walk to the expected last cluster or, if the list is full, towards it; anything else is EIO, or EINVAL when the start lies outside the table |
| `Batch.BatchLists` | rfs/log.c:1460-1535 | cutting a chunk list into records of 19 loses and reorders nothing |
| `Batch.RecordsFit` | rfs/log.c:1542-1562 | a list within the limit takes between 1 and 127 records |
| `Batch.SignatureAdds` | rfs/log.c:1282-1328 | each record adds the first cluster of its own first chunk to the signature and nothing else, as 32-bit words add |
| `Batch.SubTypeTells` | rfs/log_replay.c:501-589 | the stored number of a record's kind tells all kinds apart |
| `Batch.SignatureAgrees` | rfs/log.c:1282-1328 | the signature recomputed at replay from the records is the one the writer computed in one pass over the list |
| `Undo.UndoOneFat` | rfs/log_replay.c:46-134 | undoing a record gives the entries the record touched the values they had when it was logged, whatever the crash left there, and changes no other entry |
| `Undo.UndoOneDir` | rfs/log_replay.c:146-279 | undoing a record gives a slot's mark, start cluster and xattr words back where the record covers them, writes 0xE5 on built slots that are in use, and leaves everything else in the slot |
| `Undo.AttributesGone` | rfs/log_replay.c:95-120 | a first attribute cluster is given back: whatever the crash left in the slot, its attribute flag is off and its creation time and date are those of before |
| `Undo.StartGone` | rfs/log_replay.c:78-95 | a first data cluster is given back: whatever the crash left in the slot, it names no cluster again |
| `Undo.UndoBuiltAt` | rfs/log_replay.c:146-185 | on any directory, exactly the slots of the name that are reached one by one and in use get the delete mark |
| `Undo.UndoRemovedAt` | rfs/log_replay.c:197-279 | on any directory, exactly the slots that are reached one by one get their logged first bytes back |
| `Undo.UndoFails` | rfs/log_replay.c:46-134 | undoing a record fails exactly when it names an entry outside the table or, for a move, a slot that is not there |
| `Undo.UndoRestores` | rfs/log_replay.c:1098-1156 | undoing the records newest-first from any mixture of their writes gives back the table and the live slots of the last commit |
| `Undo.RollbackExact` | rfs/log_replay.c:1098-1156 | all crash images roll back exactly if and only if no record builds an entry over a slot that was live at the last commit |
| `Undo.BuildsFirst` | rfs/namei.c:1373-1396 | a transaction that removes names only after its last build, as rename does, meets that condition |
| `Undo.RemoveFirstIsLogged` | rfs/namei.c:1314-1450 | the counterexample is a run of truthful records: a removal followed by a build over the removed slot |
| `Undo.RemoveFirstCrossLinks` | rfs/log_replay.c:146-279 | with the removal first, rolling back leaves two live entries that share one chain |
| `Undo.UndoAllPartial` | rfs/log_replay.c:1098-1156 | the undo writes only where its records allow, from any state of the disk |
| `Undo.UndoRestartable` | rfs/log_replay.c:1023-1192 | after any number of undo attempts cut short, in any mixture of their writes, the attempt that finishes still gives back the last commit |
| `LogRing.RingHolds` | rfs/log.c:2079-2106 | sequence number s sits in slot (s - 1) mod 256 until it is overwritten |
| `LogRing.RingReads` | rfs/log_replay.c:937-1003 | every slot of the ring reads as the newest sequence number that belongs there, or as blank |
| `LogRing.LogFile.Write` | rfs/log.c:2079-2106 | the history grows by one record with the next sequence number, and the ring stays the window on its newest 256 |
| `LogRing.LogFile.SanityCheckSequence` | rfs/log_replay.c:886-927 | true exactly when all sectors behind the newest go on counting, or are all blank |
| `LogRing.LogFile.SequentialSearchMax` | rfs/log_replay.c:937-1003 | for every number N >= 1 of records ever written it finds slot (N - 1) mod 256, and for none it reports an empty log; on sectors left by anything else it fails with EIO unless they count up to one sector and on behind it |
| `LogRing.LogFile.Reopen` | rfs/log.c:516-672 | a new mount recovers write position and next sequence number from the sectors alone, or fails with EIO on a log a burst has ruined |
| `LogRing.LogFile.GenerateSignature` | rfs/log.c:1282-1328 | the sum of the first cluster of every 19th chunk, one per record, as a 32-bit word |
| `LogRing.LogFile.WriteRecord` | rfs/log.c:1460-1535 | record i of a batch follows the history in the next slot, with the chunks that are its turn, wrapping around the ring |
| `LogRing.LogFile.EndBatch` | rfs/log.c:1570-1636 | position and sequence number move on behind all records of the batch |
| `LogRing.BurstReadable` | rfs/log_replay.c:886-1003 | of the sectors of a burst any subset may be durable: the log can be opened again if and only if they are the first ones, and then it is the history with those records; nothing is said of a log that counts as empty but when that is |
| `LogRing.LogFile.CutOff` | rfs/log.c:2115-2138 | a crash in a burst leaves the history with the first records of the batch or a log that is ruined |
| `LogRing.SecondOnly` | rfs/log_replay.c:937-1003 | a commit, and of a batch of two only the second sector: EIO |
| `Redo.RecoverUndoes` | rfs/log_replay.c:1098-1156 | replay of an unfinished transaction is the undo of its records, newest first, down to the commit or abort before it |
| `Redo.RecoverTorn` | rfs/log_replay.c:501-589 | a batch of which only a strict prefix reached the log is passed over: replay goes on at the record before it as if it had never been logged, provided that one is of another type |
| `Redo.RecoverTornBehind` | rfs/log_replay.c:783-854 | a torn batch behind a whole one of the same type, all cases: both passed over while they are fewer than the second one says; otherwise redone as one batch if both signatures are the sum over the records taken, and an I/O error if not |
| `Redo.TornBehindFails` | rfs/inode.c:790-803 | one record of a batch of two behind a batch of one: the volume cannot be mounted |
| `TornFrees.AllOrNone` | rfs/cluster.c:531-582 | some of the writes that free the first clusters of an orphan are on the disk: there are chains that make it a consistent volume if and only if all of them are, or none |
| `TornFrees.PassedOver` | rfs/log_replay.c:501-589 | when both are passed over replay changes nothing, and the volume is consistent if and only if all writes of the first batch are on the disk, or none |
| `TornFrees.PassedOverLinked` | rfs/log_replay.c:597-679 | when both are passed over down to a mark of the same chain, replay hangs the clusters from that mark on the pool again, and the volume is consistent if and only if none of them was freed yet |
| `TornFrees.HungOnFree` | rfs/inode.c:790-803 | a batch of one freed on the disk, one record of a batch of three: the mount succeeds, and no chains at all fit the table |
| `Redo.RecoverBatch` | rfs/log_replay.c:783-854 | a complete batch is found from its last record, passes the signature check, and frees exactly the clusters it was made from |
| `Redo.RecoverOther` | rfs/log_replay.c:783-854 | a complete batch of a type that is not redone is passed over as one |
| `Redo.SourceFails` | rfs/log_replay.c:597-679 | putting file and pool right fails exactly when the slot, the file's last cluster, the end of the pool or what it should lead to is not there |
| `Redo.Unsigned` | rfs/log_replay.c:1050-1156 | a record without the magic word is an I/O error, unless it is a mark, which needs none |
| `Replay.Disk.UndoAllocChain` | rfs/log_replay.c:46-134 | in place, what undoing the record means, its failure included |
| `Replay.Disk.UndoBuiltEntry` | rfs/log_replay.c:146-185 | in place, what undoing the record means |
| `Replay.Disk.UndoRemovedEntry` | rfs/log_replay.c:197-279 | in place, what undoing the record means |
| `Replay.Disk.UndoMoveChain` | rfs/log_replay.c:430-490 | in place, what undoing the record means, its failure included |
| `Replay.Disk.RedoSourceAndLog` | rfs/log_replay.c:597-679 | in place, the end of a truncated file first, its end mark or its zeroed start word, and the link in the pool after it, which decides when both are one cluster |
| `Replay.Disk.Put` | rfs/log_replay.c:1023-1192 | one write of a replay: whenever replay is cut short, the disk differs from the one it found only where the records let it |
| `Replay.Disk.RedoDeallocChain` | rfs/log_replay.c:697-773 | puts source and pool right and then frees the clusters of every record of the batch |
| `Replay.Disk.ReadAhead` | rfs/log.c:2016-2072 | reads n records of the history from the ring, across wrap-around |
| `Replay.Disk.SanityCheckBatch` | rfs/log_replay.c:501-589 | tells a complete batch from a torn one, names the record to go back before, and accepts a batch exactly when every stored signature is the recomputed one |
| `Replay.Disk.RedoDealloc` | rfs/log_replay.c:783-854 | redoes a complete batch, passes over a torn one, and stays inside the newest 256 records |
| `Replay.Disk.ReplayBack` | rfs/log_replay.c:1098-1156 | the loop over the ring does what replay of the whole history means, its failure included |
| `Replay.Disk.Replay` | rfs/log_replay.c:1023-1192 | table and slots become what the history means for them, and the log is closed with a commit unless it was closed already; from a log that cannot be opened it fails with EIO and changes nothing |
| `Replay.Disk.CommitReplay` | rfs/log_replay.c:1170-1185 | the commit follows the newest record with the next sequence number |
| `Layout.LayoutDetermines` | rfs/cluster.c:653-766 | the invariant that splits the used clusters among disjoint chains leaves nothing open: two tables with the same layout are equal |
| `Layout.FileIsChain` | rfs/cluster.c:110-207 | the chain of a file with a name ends in the end mark inside its own clusters |
| `Layout.LogIsChain` | rfs/log.c:445-471 | the log file and all orphans behind it form one chain on the disk, so none can be lost |
| `Layout.ExtendOk` | rfs/cluster.c:216-234 | the two writes that append a free cluster keep the invariant and change no other chain |
| `Orphans.HangOk` | rfs/log.c:1739-1857 | hanging an unlinked chain on the pool, by one write, keeps the invariant |
| `Orphans.CutOk` | rfs/cluster.c:861-933 | the end mark written behind k clusters cuts a file into two disjoint chains |
| `Orphans.DropOk` | rfs/log.c:1643-1731 | freeing the first clusters of an orphan and linking past them keeps the invariant, the rest of the orphan still in its place |
| `Orphans.DropCount` | rfs/cluster.c:741-766 | as many clusters leave the layout as were freed |
| `Orphans.UsedCount` | rfs/fcache.c:600-678 | the non-free entries of the table are as many as the clusters the layout places |
| `Orphans.AbsorbedOk` | rfs/log.c:445-471 | read from its start at mount, the log file's chain is its own clusters and then every orphan in order |
| `Names.FilesRename` | rfs/namei.c:1182-1304 | building the new name and then removing the old one leaves every name leading to its chain |
| `Names.FilesRemove` | rfs/dos.c:1167-1252 | removing one name leaves all others as they were |
| `Crash.RedoExact` | rfs/log_replay.c:597-773 | whatever the crash left of the batch, of the link in the pool, of the end mark and of the slot, redo makes it the batch done and nothing else |
| `Crash.FreedIsVolume` | rfs/log_replay.c:597-773 | the result is consistent: the rest of the chain is still in the pool, every name leads to its chain |
| `Crash.CrashRecovers` | rfs/log_replay.c:1023-1192 | in every phase, with or without the first records of a batch behind it, from every disk a crash may leave, replay succeeds, gives back what it must, and the volume is consistent: nothing is leaked and nothing is shared |
| `Crash.TornBatchRecovers` | rfs/log.c:1460-1535 | with the first records of a batch in the log and no other, replay gives back what it gives back without them |
| `Crash.ReplayIsPartial` | rfs/log_replay.c:1023-1192 | what a finished replay changed lies where a cut-short replay may write |
| `Crash.ReplayRestartable` | rfs/log_replay.c:1023-1192 | in every phase, torn batches included, after any number of replays that were cut short, the one that finishes gives back the same |
| `Crash.FitsIfDone` | rfs/log_replay.c:597-773 | of the disks a crash may leave of a batch, those on which everything is done and no other are the volume the batch leads to |
| `State.SegsHang` | rfs/log.c:1739-1857 | adding a segment at the end of the list follows the chain being hung on the pool on the disk |
| `State.SegsExtend` | rfs/log.c:1360-1396 | an orphan that grows moves the end of its segment, and of the pool if it is the last |
| `State.SegsDrop` | rfs/log.c:1643-1731 | taking a segment out of the list follows the orphan being freed on the disk, in all four cases of where it stands |
| `State.SegmentSides` | rfs/log.c:1404-1447 | the segments beside an orphan's say which cluster leads to it and where it leads |
| `Steps.RecordStep` | rfs/log.c:1131-1216 | a record that describes the volume as it stands keeps the volume recoverable |
| `Steps.CommitStep` | rfs/log.c:1926-1948 | a commit makes the volume as it stands the one to go back to |
| `Steps.BatchStep` | rfs/log.c:1570-1636 | a complete batch makes the freeing the thing replay finishes |
| `Steps.PhaseInWindow` | rfs/log_replay.c:1098-1156 | whatever the phase, torn batches included, replay reads no record that was overwritten |
| `Steps.PhaseConfined` | rfs/log_replay.c:1098-1156 | whatever the phase, torn batches included, the records let replay write only where the phase allows, so each of its writes is one |
| `Steps.ReplayStopped` | rfs/log_replay.c:1023-1192 | a replay stopped after any of its writes leaves a disk from which the next replay gives back what the first would have |
| `Freeings.BatchDone` | rfs/cluster.c:531-582 | freeing the clusters of a batch moves the boundary of what is gone, from any crash image |
| `Freeings.ChainLeft` | rfs/cluster.c:691-738 | what is left of the chain between two batches is still linked as it was |
| `Freeings.AllDone` | rfs/cluster.c:741-766 | after the last batch and the link past it, the table is the one with exactly this chain dropped |
| `Freeings.CutDone` | rfs/cluster.c:861-933 | a truncation done leaves the same chains, one of them cut |
| `Windows.WindowHands` | rfs/log.c:2251-2280 | a cluster of the window is still free when it is handed out, and the one durable record covers every write that appends it |
| `Windows.WindowMoves` | rfs/log.c:2251-2280 | appending it leaves the rest of the window free, different and covered, so no cluster is handed out twice |
| `Growth.OrphanAppendOk` | rfs/log.c:1360-1396 | a cluster appended to an orphan in the middle of the pool leaves table, segment list, names and inodes in agreement |
| `Growth.FirstAppendOk` | rfs/cluster.c:349-357 | the first cluster of an unlinked empty file makes its chain the last of the pool |
| `Growth.FreeCount` | rfs/cluster.c:294-363 | the free clusters are all those no chain has, and none is left when the search finds none |
| `Outcomes.FreeingKeeps` | rfs/log_replay.c:597-773 | however far the freeing of an orphan has come, a crash gives back the same names with the same chains |
| `Outcomes.CuttingSafe` | rfs/cluster.c:861-933 | once the first batch of a truncation is durable, a crash gives back the file cut |
| `Outcomes.AbsorbedContents` | rfs/log.c:445-471 | cut back to its own clusters, the log file leads where it led before the crash, and every name too |
| `Mounting.LoadedOk` | rfs/inode.c:255-283 | the slot's start word and the walk along the chain give an inode that agrees with the layout |
| `Driver.Volume.SyncInode` | rfs/inode.c:1037-1291 | the inode's start cluster is in its slot, and every name leads to its chain |
| `Driver.Volume.MetaCommit` | rfs/log.c:142-220 | nothing the transaction changed is left to write |
| `Driver.Volume.MarkEnd` | rfs/log.c:1926-1948 | the log gets the given mark of the running type as its newest record, over a volume that is consistent as it stands |
| `Driver.Volume.CommitDeferred` | rfs/log.c:749-795 | a deferred write of the asked-for file is committed, with its window released and a commit of the write in the log; any other transaction stays as it is, the log included |
| `Driver.Volume.LogStart` | rfs/log.c:881-933 | nested calls and a write to the file of the deferred one change nothing; everything else starts with no record behind the last commit, which it writes itself if a write was pending |
| `Driver.Volume.LogEnd` | rfs/log.c:946-1033 | a nested end and the end of a write that succeeded leave the transaction open, with log, window and disk as they were; an empty one leaves no trace; any other closes with a commit, or an abort if it failed, and then a crash gives back the names and chains as they are now |
| `Driver.Volume.ForceCommit` | rfs/log.c:688-717 | a deferred write is committed on demand, and from then on a crash gives back the file with it; a write to another file than the one asked for, and a transaction that is none, stay as they were |
| `Driver.Volume.ReleasePreAlloc` | rfs/log.c:724-741 | clusters left in the window were never taken from the table, and the next search starts at the first of them |
| `Driver.Volume.FindFreeClusters` | rfs/cluster.c:59-97 | different free clusters, as many as asked for or else all there are, the first ones from the search position on, wrapping around at the end of the table; the search goes on behind the last one; ENOSPC only when none is free |
| `Driver.Volume.LogAllocChain` | rfs/log.c:1131-1216 | one record of exactly these clusters, behind what was logged; in a transaction with a window there is at most one behind the last commit: the one before is committed first |
| `Driver.Volume.PreAllocClusters` | rfs/log.c:2289-2346 | a window of 115 free clusters, or all there are, in the order of the search and logged at once before any is used |
| `Driver.Volume.LogGetCluster` | rfs/log.c:2251-2280 | the next cluster of the window, still free, and a new window when it is used up; fails only when the volume is full |
| `Driver.Volume.GetCluster` | rfs/cluster.c:244-284 | the next free cluster in search order with a durable record of it that covers the writes to come; fails only when the volume is full |
| `Driver.Volume.AppendNewCluster` | rfs/cluster.c:216-234 | both writes are covered by durable records, so a crash between them is recoverable |
| `Driver.Volume.MoveChain` | rfs/log.c:1739-1857 | the chain is the last of the pool, on the disk and in the segment list, under exactly the record that undoes it |
| `Driver.Volume.OpenUnlinkChain` | rfs/inode.c:819-889 | an inode with a chain hangs it on the pool; one without has nothing to hang |
| `Driver.Volume.UpdateSegment` | rfs/log.c:1360-1396 | the new last cluster leads to the next orphan, and segment and pool end follow |
| `Driver.Volume.AllocCluster` | rfs/cluster.c:294-363 | the chain grows by one cluster that was free, and no other chain changes: for named and unlinked inodes from a window, for new ones and named ones with a chain outside |
| `Driver.Volume.DeallocChain` | rfs/log.c:1570-1636 | the batch lists exactly the clusters about to be freed, and freeing them is what replay finishes from then on |
| `Driver.Volume.LogBatch` | rfs/log.c:1460-1535 | after every single record of the batch a crash, and the mount after it, gives back what was expected before |
| `Driver.Volume.SetFreeChunks` | rfs/cluster.c:531-582 | frees exactly the clusters of the list |
| `Driver.Volume.CommitMrc` | rfs/log.c:804-868 | the record says where to go on, and replay from it finishes what is left |
| `Driver.Volume.FreeBatch` | rfs/cluster.c:691-738 | one batch frees a stretch of the chain and says where the next begins |
| `Driver.Volume.FreeAll` | rfs/cluster.c:691-738 | all batches together free the whole chain, within the capacity of the log, recoverable at every step |
| `Driver.Volume.LocationInSegmentList` | rfs/log.c:1404-1447 | the cluster that leads to the chain and the one it leads to |
| `Driver.Volume.MoveChainPp` | rfs/log.c:1643-1731 | the pool is linked past the chain on the disk, and the list is the one without its segment |
| `Driver.Volume.FreeChain` | rfs/cluster.c:653-766 | exactly the clusters of the chain are free, pool, list and count are those without it |
| `Driver.Volume.DeallocClusters` | rfs/cluster.c:861-933 | frees precisely the clusters from position skip on; at the end of the chain nothing, beyond it an error and nothing changed |
| `Driver.Volume.RemoveEntry` | rfs/log.c:1089-1123 | the bytes the delete marks replace are durable, in their order, before the first mark is written; then no slot of the name is in use |
| `Driver.Volume.BuildEntry` | rfs/log.c:1042-1080 | the name is written under a durable record and only over slots free at the last commit; every slot holds the piece meant for it |
| `Driver.Volume.WriteSlots` | rfs/namei.c:589-634 | slot i of the name, counted down from the short one, holds piece i |
| `Driver.Volume.DeleteEntry` | rfs/inode.c:897-1000 | the name is gone, every slot of it marked, the chain is the last orphan, no other name or chain changes |
| `Driver.Volume.Unlink` | rfs/namei.c:1046-1082 | the name is gone, in the slots too, where nothing else changes, and the chain is an orphan; after it returns a crash gives back the volume without the name, and during it with or without |
| `Driver.Volume.Truncate` | rfs/file.c:347-483 | the file keeps exactly its first skip clusters, no other chain changes, nothing is done to an unlinked file; a crash at any write gives back the file as it was or the file cut, and after it returns the file cut, closed with a commit |
| `Driver.Volume.DeleteInode` | rfs/inode.c:756-812 | exactly the clusters of the orphan are freed, under a commit at the end, and all else stays; no crash changes a name or what it leads to |
| `Driver.Volume.Lengthen` | rfs/file.c:1297-1322 | writing gives the file n clusters at its end, changes no other chain and leaves the commit pending; it falls short exactly when fewer are free, and then the volume is full and the transaction closed; a crash gives back what was committed or the file with some of them |
| `Driver.Volume.TruncateForward` | rfs/file.c:274-297 | n clusters, closed with a commit, or, when fewer are free or the file has no name, none at all and nothing changed or logged; a crash gives back the file with some of them, and after it returns with all |
| `Driver.Volume.Bmap` | rfs/file.c:1348-1394 | for every index and whatever the inode remembers, the block the plain walk from the start gives, or EFAULT exactly from the end of the file on; also for a file whose chain hangs among the orphans; what the inode remembers stays right, and is the cluster found |
| `Driver.Volume.BuildFastSeek` | rfs/file.c:975-1073 | the inode gets exactly the points of its chain, or nothing changes |
| `Driver.Volume.Create` | rfs/namei.c:970-1000 | one more name with an empty chain, or a chain of one cluster for a directory, closed with a commit; every slot of the name holds the piece meant for it, and no other slot is written; without a free cluster nothing is left behind; a crash gives back the volume with or without it, and after it returns with it |
| `Driver.Volume.MoveToDir` | rfs/namei.c:1182-1304 | the new name is built, piece by piece into its own slots, before the old one goes, so a rollback never meets a slot it cannot bring back |
| `Driver.Volume.Rename` | rfs/namei.c:1314-1450 | the file has the new name only, all pieces of it in its slots, and a replaced target is an orphan; no other name's slot changes; a crash gives back the names before or after, never both and never none, and after it returns, with a commit, those after |
| `Driver.Volume.PowerFails` | rfs/log_replay.c:1023-1192 | nothing in core survives, and the disk holds any one of the images the phase allows |
| `Driver.Volume.Mount` | rfs/log.c:335-479 | from any such disk: consistent, with exactly the names and chains the crash had to give back, and no orphan left: all their clusters are free; a log that a burst has ruined gives EIO and nothing changed |
| `Driver.Volume.CrashAndMount` | rfs/log.c:335-479 | from the state between any two writes of any operation, records of one batch included, and any disk the crash leaves, a mount gives a consistent volume with the contents of before or after, and nothing pending |
| `Driver.Volume.CrashInBurst` | rfs/log.c:2115-2138 | power fails in the burst of a batch: with the first sectors on the disk the mount gives back what it would have before the batch, with any other subset it fails with EIO |
| `Driver.Volume.MountLog` | rfs/log.c:445-471 | the chain behind the log file is freed, exactly the log file's own clusters stay |
| `Driver.Volume.CountUsedClusters` | rfs/fcache.c:600-678 | two plus the number of clusters that belong to a chain |
| `Driver.Volume.LoadInode` | rfs/inode.c:255-283 | the in-core inode of a name gets the two ends of its chain |
| `Driver.Volume.FillInode` | rfs/inode.c:429-453 | a chain longer than the recorded size calls for is cut back to it, and nothing else changes; a crash at any write gives back the file whole or cut, and after it returns the file cut |
| `FatCaches.DecodeEncode` | rfs/fcache.c:456-489 | every value that may be written is read back, in both widths, and the top four bits of a wide word stay |
| `FatCaches.DecodeReads` | rfs/fcache.c:386-424 | of every word a disk may hold: it reads as the end mark exactly when its low 28 or its 16 bits are 0xFFFFFF8 or 0xFFF8 and more, otherwise as those bits, and as EIO when they are no entry |
| `FatCaches.WordPlace` | rfs/fcache.c:335-357 | block and byte of an entry are those of its byte address |
| `FatCaches.Evict` | rfs/fcache.c:248-294 | giving up a clean slot loses nothing, not even when another slot holds the same block |
| `FatCaches.FatCache.Sync` | rfs/fcache.c:189-219 | afterwards no slot is dirty and the device holds everything, and no word reads differently |
| `FatCaches.FatCache.AddEntry` | rfs/fcache.c:248-294 | the clean slot used longest ago is given up, and without one all are flushed before; the block comes to the head, no word reads differently, and no block becomes held twice |
| `FatCaches.FatCache.GetEntry` | rfs/fcache.c:304-327 | the early stop at the first unassigned slot is sound: the block is at the head of the list, all others keep their order, and it was not cached again |
| `FatCaches.FatCache.Read` | rfs/fcache.c:366-424 | reads the flat table, errors included: the end mark for every word from 0xFFFFFF8 or 0xFFF8 on; changes nothing in it and brings the block to the head of the list |
| `FatCaches.FatCache.Write` | rfs/fcache.c:434-489 | writes the flat table, errors included: the value's bits go into the entry's own word; every other word, and the top four bits of this one, stay; the block is at the head and dirty |
| `FatCaches.FatCache.SetModify` | rfs/fcache.c:228-239 | the slot a search for the block stops at becomes dirty, and no other changes |
| `FatCaches.FatCache.BurstRead` | rfs/fcache.c:503-590 | no word reads differently; afterwards no block is held twice if and only if no slot behind those taken held one of the blocks |
| `FatCaches.FatCache.CountUsed` | rfs/fcache.c:600-678 | two plus the non-free entries, or EIO exactly when some entry is invalid; whatever blocks are cached before, none is held twice afterwards |
| `FatCaches.HeldFit` | rfs/fcache.c:600-640 | as many slots as the table has blocks are all that can hold one, so the first burst takes every slot that does |
| `FatCaches.BurstTwice` | rfs/fcache.c:503-590 | a burst of a block that a slot further back holds leaves it in two slots |
| `Lookup.BlockInside` | rfs/file.c:1370-1377 | a block before the end of the file lies in a cluster the file's size covers, so the walk never leaves the chain |
| `Lookup.PointsCover` | rfs/file.c:1025-1027 | a chain has as many points as intervals cover it |
| `Lookup.LookupHint` | rfs/file.c:60-99 | wherever it starts from, the remembered place, a fast-seek point or the start, that cluster lies on the chain so many hops before the one wanted: no more than from the place remembered, and no more than an interval where there are points |
| `Lookup.UpdateHint` | rfs/file.c:117-129 | the cluster found is remembered, but never the first one; what is remembered is where the chain has it, and the points stay |
| `Lookup.FindBlock` | rfs/file.c:1348-1394 | the block the plain walk from the start gives, whatever the short cuts hold, and it is remembered; or EFAULT exactly from the end of the file on, and nothing changed |
| `Lookup.FindPoints` | rfs/file.c:975-1073 | exactly the points of the chain, or nothing changed; an odd interval fails with EIO exactly when the file's size takes more than one cluster |
| `Lookup.LowBitDivides` | rfs/file.c:1007-1009 | the interval a call is cut down to, a power of two, divides the one asked for, and what is left is odd |
| `Lookup.IntervalIs` | rfs/file.c:1085-1095 | who asks for less than 2 gets an interval of 4, anyone else the largest power of two that divides what was asked for |
| `Lookup.OddIntervalFails` | rfs/file.c:1007-1036 | on a file of two clusters an interval of 3 fails and one of 2 does not |
| `Lookup.CutsGrow` | rfs/cluster.c:294-363 | both short cuts stay right when the chain grows at its end |
| `State.InodesRecut` | rfs/file.c:105-130 | short cuts that are right may take the place of others, and every inode still agrees with its chain |
| `Bytes.Read` | rfs/xattr.c:380-455 | block by block, exactly the bytes of the stretch, whatever blocks it reaches into |
| `Bytes.Write` | rfs/xattr.c:380-455 | block by block, exactly this stretch is replaced |
| `Bytes.LowFirst` | rfs/xattr.c:478-586 | words lie in the area with their lowest byte first |
| `Xattr.HeadRoundTrip` | rfs/xattr.c:478-586 | an entry head written is the head read back, signature included |
| `Xattr.HeadLayout` | rfs/xattr.h:120-131 | which bytes of an entry's head hold flag, kind, lengths, filling and signature |
| `Xattr.FrontRoundTrip` | rfs/xattr.c:594-690 | the counts written in the header are the counts read back |
| `Xattr.FrontLayout` | rfs/xattr.h:101-117 | which bytes of the header hold signature and counts |
| `Xattr.MapHas` | rfs/xattr.c:762-897 | a key is in the map exactly when a used entry carries it, and then with that entry's value |
| `Xattr.MapSize` | rfs/xattr.c:1181-1183 | the number of used entries is the size of the map |
| `Xattr.TilesKept` | rfs/xattr.c:527-586 | an entry written over a deleted one of the same length, or behind the last, leaves all others where and what they were |
| `Xattr.TileDeleted` | rfs/xattr.c:1147-1170 | the one byte that marks an entry as deleted leaves the tiling intact |
| `Xattr.SlotFits` | rfs/xattr.c:321-369 | an entry put over a deleted one of its length never needs another cluster |
| `Xattr.KeysAre` | rfs/xattr.c:1350-1431 | a listing names every key once and nothing else |
| `Xattr.LineIs` | rfs/xattr.c:1393-1428 | a line of a listing is the prefix of the kind, then the name, then a zero |
| `Xattr.ListingIs` | rfs/xattr.c:1350-1431 | the lines stand one behind the other in the order of the entries |
| `XattrArea.Area.Expand` | rfs/xattr.c:321-369 | gets all the clusters the write needs or none, and ENOSPC exactly when there are not enough |
| `XattrArea.Area.WriteAt` | rfs/xattr.c:380-455 | the data lies there afterwards and nothing else moved, or nothing changed |
| `XattrArea.Area.WriteEntry` | rfs/xattr.c:527-586 | head, name and value lie one behind the other; on failure nothing outside the entry changed |
| `XattrArea.Area.Lookup` | rfs/xattr.c:762-897 | finds the key exactly when it is in the map, and the first deleted entry of the very length, or the end; stopping after the last used entry misses nothing |
| `XattrArea.Area.MarkOld` | rfs/xattr.c:1147-1170 | the key leaves the map, and counts and tiling agree again |
| `XattrArea.Area.PutEntry` | rfs/xattr.c:1172-1184 | the key gets its value, or nothing changed but clusters gained |
| `XattrArea.Area.Set` | rfs/xattr.c:1001-1196 | all outcomes: the map with the key set, or unchanged with the error code due, and the total space counted; when a value that is replaced does not fit, the call reports success and the key is gone |
| `XattrArea.Area.Delete` | rfs/xattr.c:1484-1583 | the map without the key, or ENOATTR and unchanged; it never needs a cluster |
| `XattrArea.Area.Get` | rfs/xattr.c:1255-1339 | the value last set, its size when the buffer is empty, ERANGE when it is too small, ENOATTR when there is none |
| `XattrArea.Area.List` | rfs/xattr.c:1350-1465 | the names with their prefixes in order, or their size; a buffer that is too small is reported as an empty list |
| `XattrArea.Area.Reload` | rfs/xattr.c:637-690 | a remount reads back the counts the running system had |
| `XattrArea.ReplacementLost` | rfs/xattr.c:1146-1196 | on one cluster of 512 bytes, a new value of 600 bytes: success is reported and the attribute is gone |
| `XattrArea.ListingLost` | rfs/xattr.c:1350-1465 | one attribute, a buffer of one byte: the length reported is 0 |
| `XattrArea.HeaderUncounted` | rfs/xattr.c:1001-1196 | a first attribute that runs out of space half way: the next one succeeds and the space in use leaves out the header |
| `LongNames.CalcChecksum` | rfs/dos.c:547-556 | the checksum of all bytes, in order |
| `LongNames.RotateIs` | rfs/dos.c:547-556 | a rotation goes to the right: the lowest bit becomes the highest, all others move down |
| `LongNames.ChecksumNext` | rfs/dos.c:547-556 | each byte is added once, modulo 256, to the sum before it rotated by one |
| `LongNames.KnownChecksum` | rfs/dos.c:547-556 | the bytes R, E, A give 0x78 |
| `LongNames.InitExtEntry` | rfs/dos.c:687-719 | piece k holds units 13(k - 1) to 13k - 1 of the name, a zero behind the last and filling behind that, for every length |
| `LongNames.GetUnits` | rfs/dos.c:273-293 | copies up to the first zero, and closes a full last piece with a zero of its own |
| `LongNames.SpelledApart` | rfs/dos.c:1181-1221 | two entries never share a slot |
| `LongNames.Directory.FindEmptyEntry` | rfs/namei.c:249-313 | the first run of free slots, with the directory grown by blank slots only when there is none, and by no cluster more than the run reaches into; ENOSPC exactly when it may not grow, or when all free clusters would not make a run |
| `LongNames.Directory.Build` | rfs/namei.c:538-634 | the entry spells the name for every length from 1 to 255, and for none exactly when no stray piece lies before it; it lies in the first run of free slots, and every other slot is as it was |
| `LongNames.StrayPiece` | rfs/namei.c:538-634 | built into the free slot behind a stray piece, an entry without pieces does not spell the empty name |
| `LongNames.Directory.GetUname` | rfs/dos.c:872-908 | reads back the name that was built, from the short entry backwards, multiples of 13 included |
| `LongNames.Directory.GetLongName` | rfs/dos.c:920-982 | on any directory, the number of pieces exactly when as many pieces of one checksum follow as the last one says and the short name behind them has that checksum, ENOENT when the directory ends before that; of a name that was built it reads all units, from its last piece forwards |
| `LongNames.Directory.Remove` | rfs/dos.c:1167-1252 | marks exactly the slots of the entry, reports the bytes the marks replace, and every other entry is as it was |
| `ShortNames.ConvertToDos` | rfs/code_convert.c:114-283 | of every name: refused exactly when nothing is left, it ends as none may or holds a forbidden character; otherwise the eleven places hold the characters before and behind the last period, in upper case, without spaces and with underscores, and never begin with a mark of a free slot; nothing is lost exactly for plain names, whose case flags are those of their letters; for those, unless cases are mixed, converting back gives the same name if and only if it does not end in a period, and the name without it otherwise |
| `ShortNames.CharactersAre` | rfs/code_convert.c:47-90 | which characters are forbidden, which get an underscore, and which letters change case |
| `ShortNames.PeriodLost` | rfs/code_convert.c:114-340 | the name A with a period behind it is stored and read back as A |
| `ShortNames.ConvertBack` | rfs/code_convert.c:292-340 | name and extension up to their padding, lower case where the flags say so |
| `DosDate.YearFound` | rfs/dos.c:108-114 | one correction of the year is enough for all years 0 to 127 |
| `DosDate.MonthsAre` | rfs/dos.c:88-127 | the twelve months of common and leap years |
| `DosDate.DaysInOrder` | rfs/dos.c:513-536 | from the first of January 1980 on, the number of the next day of the calendar is the next number |
| `DosDate.KnownStamps` | rfs/dos.c:88-127 | second 1234567890 is stored as the thirteenth of February 2009 at 23:31:30, and second 951782400 as the leap day of 2000 at midnight |
| `DosDate.ConvertDate` | rfs/dos.c:88-127 | valid fields that read back as the time rounded down to an even second, or as the start of 1980 |
| `DosDate.StampIsUnique` | rfs/dos.c:513-536 | no two valid stamps read as the same time, so storing the time read gives the same stamp |

## Left out

- Undoing XATTR_SET records, which decides by a test on a cluster whether the new entry is marked as deleted (`rfs/log_replay.c:288-420`).
- Freeing an inode's attribute chain in the transaction that frees its data, and deleting an unlinked parent directory in the transaction of its last file (`rfs/inode.c:793-797`): the second batch of such a transaction is what `Redo.RecoverTornBehind` is about, and no operation of `Driver.Volume` makes one.
- The allocation of attribute clusters from the table: `XattrArea` counts free clusters, and the data lies in one byte area instead of along a chain.
- The '..' entry of a directory renamed into another one (`rfs/namei.c:1274-1299`), which is written before the record that covers it.
- Sizes, times and attributes in directory entries; `LoadInode` and `FillInode` take the recorded size as a parameter, and i_size is not kept.
- Failing reads, writes and memory requests, and the branches that only a corrupted volume reaches inside `Driver.Volume`; `Valid()` rules them out. The walks in `Fat`, `Chunks` and `FindFreeClusters` are proved without it.
- The walk along a directory's chain to one of its slots: slots are addressed by their directory and index, and a directory does not grow inside `Create` and `Rename`; `LongNames.Directory.FindEmptyEntry` shows how it grows.
- What a failed `Create` of a directory frees again: in the model it fails before anything is allocated.
- Several operations at once, and the locks that keep them apart.
- Wrap-around of the 64-bit sequence number, and the 32-bit numbers of a profiling build.
- The table inside `Driver.Volume` is a sequence and inodes are values in a map: aliasing of buffers and of inode objects is shown only for the block cache, in `FatCaches`.
- The slots and the start cluster of the log file's own name being written again at mount.
- Symbolic links, special files, permissions, the numeric tails of short names, code pages, the fast-lookup index and the block-device drivers beneath.
- Making the log file on a volume that has none.
- Undo.UndoOneDir: does not model the '..' entry of a moved directory, which the undo of a removal repairs.
- Replay.Disk.UndoRemovedEntry: does not model the '..' entry of a moved directory either.
- Driver.Volume.SyncInode: writes the start cluster only; sizes and times are not modelled.
- Driver.Volume.MetaCommit: leaves out the flush of cached blocks and of data; a write to the table or a slot may be on the disk from the moment it is made, and `CrashImage` allows any subset.
- Driver.Volume.LogAllocChain: asks for fewer than 255 records in the open transaction, where the source sets no bound; replay needs the whole transaction and what closes it within the newest 256 sectors.
- Driver.Volume.GetCluster: has the same bound, and leaves out linked empty files, which outside a write or a forward truncation are symbolic links only.
- Driver.Volume.AllocCluster: leaves out the same; outside a window it is about directories.
- Driver.Volume.OpenUnlinkChain: leaves out the attribute chain, which the source hangs on the pool first.
- Driver.Volume.DeallocClusters: leaves out the attribute chain.
- Driver.Volume.BuildEntry: is not asked for behind a removal in the same transaction, where rollback would not be exact; no operation does that.
- Driver.Volume.DeleteEntry: asks for room for two more records within that bound.
- Driver.Volume.DeleteInode: leaves out the attribute chain and the release of an unlinked parent.
- Driver.Volume.Create: takes free slots that are there; the directory does not grow for the new name.
- Driver.Volume.MoveToDir: takes free slots that are there.
- Driver.Volume.Rename: takes free slots that are there, and updates the inode in core before a replaced target is removed, where the source does so after the transaction.
- Driver.Volume.CrashInBurst: asks for a log that was written to before; on one that was not, `LogRing.BurstReadable` says when it counts as empty.
- Driver.Volume.Mount: takes the log file's name and length from the volume, where the source computes the length from the fixed size of the log, and asks for a sequence number that has not run out.
- Driver.Volume.FillInode: does not model directories, read-only mounts and the correction of a recorded size that is larger than the chain.
- Driver.Volume.Bmap: takes the file's size as a parameter.
- Lookup.FindPoints: memory for the points is there at the first request.
- Fat.FindLastCluster: takes a point at every multiple of the interval, where the source masks the position with the interval less one; these are the same for powers of two, and the one caller passes no other.
- XattrArea.Area.Set: asks for names of at most 255 bytes and values of at most 65536, which the layer above checks; an empty name or value is a transfer of nothing, where a debugging build of the source stops.
- DosDate.ConvertDate: covers the FAT years 0 to 127, where the date word does not overflow.
- ShortNames.ConvertToDos: says nothing of the case flags of lossy names, and does not read names of mixed case back; for both a long name is stored.
- LongNames.Directory.GetUname: is stated for entries that spell a name; on a directory with stray pieces it may stop at another slot.
