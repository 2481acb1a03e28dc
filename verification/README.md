# Verified model of microStore

This project models the storage core of microStore, a key-value store for flash-constrained devices, and proves what
its documentation and tests promise of it.

**The log-structured store** (`FileStores`, over `Bytes`, `Records`, `Logs`, `IndexLog`, `Disks`, `Compaction`,
`CopyOrder`, `Recovery`, `Boot`, `Stale`, `Retry`, `Survival`, `Eviction`, `StoreSpec`, `StoreSteps`, `Checksum`,
`Ttl`, `Reopening`, `Sessions`). Records go through a 512-byte buffer into numbered segment files; an in-memory index
maps keys to places; an index file logs every change of the index; compaction copies live records segment by segment
into compact.tmp, journaling before each deletion. The disk is a map from file names to bytes together with how much
of each file is flushed. Each file-system call is one recorded state, and a power cut leaves of every file any prefix
that keeps the flushed bytes. The class `FileStore` keeps three representations in agreement over all operations: the
scan of the segments, the replay of the index file, and the index. Always the index is a part of what the index file
replays to, and that a part of the scan. The file says all that the scan does until a boot at which a record limit
evicts, and again from the next compaction on; the index does so as long as no limit evicts and nothing expires.
`View()` is the map a caller sees; each operation states what it does to it. `Carries(u, v, ...)` means that `v` is
`u` without some expired records and at most the excess of others over the record limit, and that no record left ranks
before one of those; it never means a changed value.

**Compaction, power cuts and boots.** `Sweep` fixes what one compaction started from and which entries it keeps.
`CrashSafe` says of a disk that whatever a power cut leaves, recovery followed by a scan has every kept entry and no
value the store did not hold. `Compact` shows it for every state but one stretch: from the rename in
`finalize_compaction` until the journal is cleared. There `SwappedSafeIffNothingKept` gives the exact condition, and
`CutAfterRename` a run that loses its data. `Survival` carries this to whole operations: `Guarded` says of a run of
disk states that each, outside such a stretch, recovers to contents that meet one of two claims: the old records, or
those with the new one, and in either case everything that is neither expired nor, under a record limit, evicted in
the end. `Boot` is about what `Init` then loads, and `Stale` about the boot that goes wrong: when sources were deleted
and not yet committed, the index file is the old one and the records have moved. `EntryIsRight` gives the exact
condition, and `CutWhileCopying` a run that violates it. `Retry` is about the one thing a store must not do after a
compaction gave up half way, which is to compact again: the copy is truncated, and `CompactAgain` states exactly what
is lost.

**Sessions.** `Sessions.Run` executes a list of calls of any length. Before each it checks that the segments have room
for its record below 2^24 bytes and, on a device that may lack room for compact.tmp, that it forces no compaction.
Each call is answered, as long as the records fit the limit, as by a plain map, and the three representations go on
agreeing. `Reopening` compares a store with the one opened after it; `RunAndReopen` puts both together: what a session
leaves is what the next one finds.

**The write-back cache** (`TieredStores`, over `Caches`, `CacheRuns`, `SlotLists`, `SlotTables`, `MergedIterators`). A
fixed slot array carries an intrusive recency list and intrusive hash chains. The class is proved against an abstract
cache (a list of items, most recent first, over a map): after each public operation the links form one acyclic doubly
linked list over exactly the valid slots, each chain has exactly the valid slots of its bucket, and free slots are
reset. On the abstract cache transparency, recency order and inclusion are proved over whole runs.

**The stream matcher** (`Matcher`) searches for several strings at once and falls back by walking back, without a
table.

**The checksum** (`Crc`) is the bitwise CRC-32 of section 8 of RFC 1952.

The ghost counter `lapsed` of the store makes the conservation law exact: put records on disk are live entries, plus
`deadSinceCompact`, plus `lapsed` (entries dropped by get or exists because their time was up, and dead records from
before this session). From a cleared store without expiry it is 0.

Where the code and its documentation differ the model follows the code:

- The user guide (docs/microstore_user_guide.md, line 602) says a crash after the commit journal is completed on the next
  boot. After the rename the rerun deletes segment 0 instead (`Recovery.SwappedSafeIffNothingKept`).
- The user guide (line 599) says torn records are found by CRC and commit marker. The code never compares a CRC. Torn
  records are still found, by length and commit marker alone (`Records.ParseTorn`, `Records.ScanRoundTrip`).
- The user guide (line 601) says that after a crash in the copying phase the index is rebuilt from the segments. The code
  loads the old index file, whose entries may name places the records have left (`Stale.StaleBootIsRight`).
- The user guide (line 89) says a truncated index file is rebuilt from the segments. The code loads what is left of it
  (`IndexLog.PrefixLoads`), also after a cut in its own rewriting of the file (`Boot.RewriteBoots`).
- A comment at the boot (include/microStore/FileStore.h, line 174) says the index file is rewritten so that evicted keys
  do not reappear on the next reboot. That is so of what the boot evicts. What `put` evicts is written nowhere, and is
  back after a reboot that has room for it (`Reopening.EvictedComesBack`; `Boot.ReopenShows` has the exact condition).
- A journaled source that survives a crash is not cleaned up by `finalize_compaction`
  (docs/incremental_compaction.md, line 129) but read again by the scan, which is harmless (`Compaction.MixedLog`).

Standing assumptions, stated as preconditions where they matter: keys of 1 to 64 bytes (longer ones are refused by the
operations themselves), all segments together below 2^24 bytes so that every offset fits its three bytes, at least two
and at most 255 segments, journal writes and renames atomic.

## Model

| member | source | states |
|---|---|---|
| Bytes.Uint24RoundTrip | include/microStore/FileStore.h:712-731 | Assigning a 32-bit value to the three-byte field and reading it back gives the value modulo 2^24, hence the value itself exactly when it is below 2^24. |
| Bytes.PrefixOfBlocks | include/microStore/FileStore.h:894-907 | However a write of consecutive pieces is cut, what is left is the first pieces whole and a strict prefix of the next. |
| Records.ParseEncoded | include/microStore/FileStore.h:1384-1397 | A complete record at the head of a file is accepted by a scan and read back field by field, whatever follows it. |
| Records.ParseTorn | include/microStore/FileStore.h:1385-1392 | A record cut anywhere before its last byte is never accepted, whatever its contents are. |
| Records.ScanRoundTrip | include/microStore/FileStore.h:1380-1398 | Scanning any list of records followed by any torn tail gives back exactly that list. |
| Records.ScanOfPrefix | include/microStore/FileStore.h:1380-1398 | Any byte prefix of a list of records that keeps the first `k` records scans to a prefix of the list that has them. |
| Records.EmptyKeyStopsScan | include/microStore/FileStore.h:1386-1387 | A record with an empty key, which `put` writes, ends every scan that reaches it. |
| Records.ScanExact | include/microStore/FileStore.h:1380-1398 | Any list of records, behind it any torn tail, scans to the records before the first empty key: to the whole list exactly when no key is empty. |
| Records.ParseExact | include/microStore/FileStore.h:1384-1397 | What a scan accepts as a record is, byte for byte, the encoding of that record. |
| Records.ScanIsPrefix | include/microStore/FileStore.h:1380-1398 | Every file, however it came about, starts with the encoding of what a scan finds in it. |
| Records.RecordAt | include/microStore/FileStore.h:1380-1397 | The partial-sum offset of record `j` is where it starts in the file, with the later records behind it. |
| Records.FetchEncoded | include/microStore/FileStore.h:399-432 | Seeking to a complete record and fetching gives the length of its value and the value cut to the caller's room. |
| Records.ReadRawEncoded | include/microStore/FileStore.h:1474-1491 | Compaction's raw read of a complete record gives its header, key and value byte for byte. |
| Records.RecordLayout | include/microStore/FileStore.h:99-114 | On disk a record is the sentinel bytes DE C0 DE C0, flags, key length, two bytes of value length, four each of timestamp and ttl, priority, four of checksum, key, value, and the marker bytes 0C B0 CE FA. |
| Logs.FinalIsLast | include/microStore/FileStore.h:1373-1400 | The scan's fold (insert on put, erase on tombstone) keeps for each key its last mention in the log, if that is not a tombstone, and nothing else. |
| Logs.LogAppend | include/microStore/FileStore.h:290-321 | Appending a record to the newest segment appends it to the log all segments denote. |
| IndexLog.MutationsRoundTrip | include/microStore/FileStore.h:1061-1085 | Replaying any list of index entries followed by a torn entry reads exactly that list; segment 0xFFFFFFFF is read as a removal. |
| IndexLog.EntryLayout | include/microStore/FileStore.h:1010-1016 | On disk an index entry is the key length, the key, four bytes each of segment, offset, timestamp and ttl, lowest first, and the priority; a removal has four bytes FF for its segment. |
| IndexLog.PrefixLoads | include/microStore/FileStore.h:1053-1090 | Cut the index file at any byte: what loads is the index after the whole entries that are left. |
| IndexLog.BulkEntry | include/microStore/FileStore.h:1030-1046 | An entry written by the bulk rewrite replays to exactly the index entry it came from. |
| IndexLog.IndexStep | include/microStore/FileStore.h:308-318 | Replaying one more index entry and scanning one more record move the index and the log in step. |
| IndexLog.ReplayAgain | include/microStore/FileStore.h:1053-1090 | Loading an index file over the index it already stands for changes nothing, as happens after recovery has rewritten both. |
| IndexLog.BulkCut | include/microStore/FileStore.h:1022-1051 | A rewritten index file cut at any byte loads a part of the index, and all of it exactly when no byte is missing. |
| Disks.JournalRoundTrip | include/microStore/FileStore.h:1222-1235 | A journal written in one step is read back field by field by recovery's size and magic test. |
| Disks.JournalLayout | include/microStore/FileStore.h:81-91 | On disk the journal is 16 bytes: 4E 4A 56 4B, then state, next segment and valid size, four bytes each. |
| Compaction.RecoveredContents | docs/incremental_compaction.md:31-41 | Why deleting in ascending order is safe: copies of final records in front of a suffix of the old log never resurrect a key or show an old value, and every key to keep is there. |
| Compaction.MixedLog | include/microStore/FileStore.h:1456-1517 | Any amount of the copy that covers the deleted segments, in front of the segments not deleted, has every kept entry and no value the store did not hold. |
| Compaction.CopyAlone | include/microStore/FileStore.h:1539-1544 | The complete copy alone has every kept entry, and only values the store held. |
| Compaction.PreservedExactly | include/microStore/FileStore.h:1456-1463 | When nothing was expired or evicted, preserved means equal to the contents before. |
| Recovery.CopyPhaseSafe | include/microStore/FileStore.h:1412-1517 | From every disk of the copying phase, with compact.tmp cut at any unflushed byte and a journaled source perhaps not yet deleted, recovery and a rebuild preserve the contents. |
| Recovery.CommitPhaseSafe | include/microStore/FileStore.h:1539-1540 | From every disk between the commit and the rename, with any of the sources already gone, recovery completes the swap and preserves the contents. |
| Recovery.SwappedSafeIffNothingKept | include/microStore/FileStore.h:1316-1325 | Between the rename and the clearing of the journal a power cut is survived exactly when the compaction kept nothing: the rerun deletes segment 0 and has nothing to rename. The guide (docs/microstore_user_guide.md, line 602) promises otherwise. `Compact` states that this is the journal it leaves there, and `CutAfterRename` runs into it. |
| Recovery.ClearedSafe | include/microStore/FileStore.h:1544-1548 | Once the journal is cleared the compacted disk needs no recovery. |
| Recovery.QuietSafe | include/microStore/FileStore.h:1261-1266 | Without a journal a boot finds the contents as they are. |
| Recovery.NothingLost | include/microStore/FileStore.h:1261-1305 | With no expiry and no eviction, the map recovered after a power cut at any safe moment is exactly the map before the compaction. |
| Recovery.RerunForeign | include/microStore/FileStore.h:1272-1275 | Dropping an unusable journal, cut short and rerun, recovers the same log. |
| Recovery.RerunDiscard | include/microStore/FileStore.h:1282-1285 | Discarding a copy that replaced nothing, cut short anywhere and rerun, recovers the same log. |
| Recovery.RerunRename | include/microStore/FileStore.h:1286-1304 | Renaming the copy over segment 0, cut short before the journal is cleared and rerun, recovers the same log. |
| Recovery.RerunCommit | include/microStore/FileStore.h:1316-1321 | Deleting sources after the commit, cut short anywhere and rerun, recovers the same log. |
| Recovery.RerunSafe | include/microStore/FileStore.h:1261-1305 | Where a recovery cut short leaves everything flushed, whatever a second power cut leaves recovers the same log, so a crash-safe state stays crash safe. |
| StoreSpec.CompactedExactly | include/microStore/FileStore.h:1456-1517 | The copy denotes exactly the kept keys, each with its old record (value, timestamp, ttl, priority), one record per key. |
| StoreSpec.OneRecordPerKey | include/microStore/FileStore.h:1456-1517 | No two copied records have the same key, none is a tombstone, and each is of a kept key. |
| Survival.CompactionRepacks | include/microStore/FileStore.h:1412-1549 | A compaction leaves in segment 0 the record of each key still indexed, once and in the order they were logged, and no other record in any segment. |
| StoreSpec.InStep | include/microStore/FileStore.h:308-321 | Logging a record and its index entry does to the replayed index file what it does to the index; it stays a part of the scan of the segments, and all of it if it was. |
| StoreSpec.MutationCut | include/microStore/FileStore.h:1003-1020 | An index entry cut at any byte is there as a whole or not at all. |
| StoreSpec.ThresholdArithmetic | include/microStore/FileStore.h:1247-1248 | The percentage test in 32-bit arithmetic fires exactly when dead records are at least a third of the live ones, since the 24-bit offsets keep the product from wrapping. |
| StoreSpec.CarriesAll | include/microStore/FileStore.h:934-938 | Without any time-to-live and without a record limit, carried over means unchanged. |
| StoreSpec.PrunedTrims | include/microStore/FileStore.h:945-999 | Enforcing the limit on the index takes exactly the excess from what is visible, and no record left ranks before one that went. |
| StoreSpec.CarriesTrans | include/microStore/FileStore.h:945-999 | Enforcing the limit twice, with records expiring in between, loses at most the excess over the limit and the lowest-ranked first, as enforcing it once. |
| StoreSpec.PutView | include/microStore/FileStore.h:307-316 | After a put the visible map is the old one with the new record, less exactly the excess over the record limit; no record left ranks before one that went. |
| StoreSpec.IndexWithinPuts | include/microStore/FileStore.h:1247 | There are never more indexed keys than put records in the log. |
| StoreSteps.AppendCrash | include/microStore/FileStore.h:290-305 | Cut the power at any byte of a record being appended: the segments hold the record as a whole or not at all. |
| StoreSteps.PersistCrash | include/microStore/FileStore.h:1010-1017 | Cut the power at any byte of the index entry: the record is there, and its entry as a whole or not at all. |
| StoreSteps.FetchIndexed | include/microStore/FileStore.h:377-432 | In any files that start with the records of each segment, whatever follows them, every index entry points at a complete put record of its key, and fetching there gives the visible value. |
| Survival.RestSurvives | include/microStore/FileStore.h:142-196 | Whatever a power cut leaves between two operations, recovery has everything the store held. |
| Survival.CompactionGuards | include/microStore/FileStore.h:1412-1549 | Every state of a compaction outside the swap recovers to nothing but old values, with every visible unexpired key, except that of more records than the limit allows only those still there in the end are promised. |
| Survival.LoggingGuards | include/microStore/FileStore.h:290-321 | At every state while a record is logged, recovery has exactly the contents without it or exactly those with it. |
| Survival.UpdateDone | include/microStore/FileStore.h:254-328 | Upkeep, one record, and upkeep again: of the old records and the new one only expired ones go and, of others, at most the excess over the record limit. No record left ranks before one of those, except the new one when there was an excess before it came. |
| Survival.OperationDone | include/microStore/FileStore.h:254-328 | At every state of such an operation outside a swap, recovery has the old records or those with the new one, all that are not expired as long as they fit the limit; over the limit, all of these that are there in the end. |
| Survival.ClearGuards | include/microStore/FileStore.h:231-243 | Wherever clearing is cut short, recovery has no record and no value that was not there before. |
| Retry.RetrySafeIff | include/microStore/FileStore.h:1412-1444 | After a compaction that gave up with segments already deleted, the first two steps of the next one (a new journal, an empty compact.tmp) are survived exactly when nothing to be kept lay in a deleted segment: the only copy is truncated. |
| Retry.FoundInRemnants | include/microStore/FileStore.h:1456-1470 | Of the old index exactly the entries whose record lies in a segment that is still there are found again. |
| Retry.RemnantsAreWhole | include/microStore/FileStore.h:1456-1470 | After such an attempt the segments that are left are whole, and the old index names nothing in them but final records. |
| Boot.ClosedBoots | include/microStore/FileStore.h:142-196 | A disk between operations boots to exactly its segments and to the index its index file stands for, or without one to that of a scan. |
| Boot.ReopenShows | include/microStore/FileStore.h:142-196 | What is loaded from the disk of a store between operations shows all that was visible, and nothing else exactly when the index had every entry the index file has. |
| Boot.DiscardBoots | include/microStore/FileStore.h:1282-1285 | After a cut before anything was deleted, a boot drops journal and copy and loads exactly the old index from the old index file. |
| Boot.CommitBoots | include/microStore/FileStore.h:1279-1281 | After a cut between the commit and the rename, with any of the sources gone, a boot loads exactly the kept records, index file included. |
| Boot.LoggingBoots | include/microStore/FileStore.h:1053-1090 | After a cut while a record is logged, a boot loads what the index file said before or what it says after, and every entry reads exactly the record it stands for, even with the index file behind the segments or a torn record at the end. |
| Boot.BootLoaded | include/microStore/FileStore.h:1261-1305 | Whatever disk a boot finds, a committed copy on it having no tombstones, it ends with the index of that copy, of the index file, or of the scan, and with an index file that says the same. |
| Boot.RewriteBoots | include/microStore/FileStore.h:1368-1407 | A boot whose rewriting of the index file was cut short is followed by one that scans, or loads a part of the index: all of it exactly when no byte was missing. |
| Boot.ClearedBoots | include/microStore/FileStore.h:231-243 | The boot after clearing a store with a pending journal scans compact.tmp exactly when the copy is committed or replaces deleted segments, and loads it exactly when it is committed. |
| Stale.EntryIsRight | include/microStore/FileStore.h:1286-1296 | After recovery renamed compact.tmp, the old entry of a kept key is the one a scan would make exactly when its record lies in a surviving segment or in segment 0 at the very place of its copy. |
| Stale.StaleKept | include/microStore/FileStore.h:1286-1296 | The boot after a cut with sources deleted loads the old index file; its entries of kept keys are right exactly when each of their records is in place. |
| Stale.StaleBootIsRight | include/microStore/FileStore.h:1286-1296 | With nothing expired or evicted that boot as a whole ends with the index of the recovered log exactly under the same condition. The guide (docs/microstore_user_guide.md, line 601) promises a rebuilt index. |
| CopyOrder.SortOffsets | include/microStore/FileStore.h:1463 | The sorted offsets are ascending and have the same elements. |
| CopyOrder.AscendingUnique | include/microStore/FileStore.h:1463 | An ascending list of offsets is determined by its elements. |
| CopyOrder.CollectedAreLive | include/microStore/FileStore.h:1457-1463 | The offsets collected from the index and sorted are exactly those of the segment's live records, in file order. |
| CopyOrder.ReadLive | include/microStore/FileStore.h:1471-1491 | Seeking to each of those offsets and reading gives the live record there. |
| Eviction.EvictsBeforeIsStrictWeakOrder | include/microStore/FileStore.h:950-957 | The comparison is a strict weak order: that of timestamp minus penalty in integers. |
| Eviction.PenaltyExact | include/microStore/FileStore.h:954-955 | The 32-bit penalty is the integer one for every priority exactly when the effective ttl is below 434549658 seconds. |
| Eviction.OrderIsIntended | include/microStore/FileStore.h:950-992 | Entries are ranked by timestamp minus the integer penalty of their own ttl, or of the store's where they have none, for all pairs, exactly when the store's ttl is below 434549658; an entry's own ttl has 24 bits and cannot be that large. |
| Eviction.PairIsIntended | include/microStore/FileStore.h:950-992 | Two entries that both have a ttl of their own are ranked by that order whatever the store's ttl is. |
| Eviction.OwnTtlCounts | include/microStore/FileStore.h:963-966 | Between two entries with a ttl of their own the store's ttl makes no difference. |
| StoreSpec.RanksExactly | include/microStore/FileStore.h:950-957 | Records are ranked by timestamp minus the penalty of their priority and of the 24 bits kept of their ttl, or of the store's where these are 0. |
| Eviction.WrongOrderOfEquals | include/microStore/FileStore.h:950-957 | At exactly that ttl, of two entries of the same age, the one of priority 1 is evicted before the one of priority 255. |
| Eviction.FirstToEvict | include/microStore/FileStore.h:959-968 | The single scan finds an entry that none ranks before. |
| Eviction.EvictFirst | include/microStore/FileStore.h:969-992 | The bulk path leaves the right number of entries, none of them ranking before an evicted one. |
| Crc.ComputeCrc32 | include/microStore/Utility.h:75-85 | The loop computes the CRC of the first `len` bytes, and 0 without a buffer. |
| Crc.Chaining | include/microStore/Utility.h:75-85 | Feeding a message in two pieces gives the CRC of the whole. |
| Crc.RunInjective | include/microStore/Utility.h:79-83 | Two different registers stay different whatever is fed to both. |
| Crc.BurstInjective | include/microStore/Utility.h:79-83 | From any register, two different messages of the same length up to four bytes lead to different registers. |
| Crc.BurstDetected | include/microStore/Utility.h:75-85 | Messages of equal length that differ only within four consecutive bytes never share a CRC. |
| Crc.Residue | include/microStore/Utility.h:75-85 | A message followed by the four bytes of its own CRC, lowest first, has the CRC 0x2144DF1C, whatever the message. |
| Checksum.ResidueOfBytes | include/microStore/Utility.h:75-85 | The same of the CRC written as a 32-bit little-endian integer. |
| Checksum.CrcOfWhole | include/microStore/FileStore.h:286-288 | The header's checksum, computed in three calls, is the CRC-32 of the 17 header bytes before it, the key and the value as one message. |
| Checksum.SealedEncoding | include/microStore/FileStore.h:278-299 | The record as written is the covered header bytes, the checksum, the key, the value and the commit marker. |
| Checksum.WrittenRecords | include/microStore/FileStore.h:278-299 | What a put and a remove write carries exactly the flags, key, value, timestamp, ttl and priority given, and bytes 17 to 20 of it are the CRC-32 of the 17 bytes before them, the key and the value. |
| Survival.UpdateChecksOut | include/microStore/FileStore.h:254-328 | A put or a remove, with any compaction in it, leaves no record, live or dead, whose checksum does not check out, if there was none. |
| FileStores.FileStore.constructor | include/microStore/FileStore.h:119-122 | A new store is closed and empty; it has read nothing from the disk. |
| FileStores.FileStore.FlushBuffer | include/microStore/FileStore.h:894-907 | A flush moves the buffer to the end of the active file, durably; without a file the bytes are dropped and the flush fails. |
| FileStores.FileStore.AppendBuffer | include/microStore/FileStore.h:874-892 | However the data is split over flushes of the fixed buffer, the active file grows by exactly the data. |
| FileStores.FileStore.PruneIndex | include/microStore/FileStore.h:945-999 | What is left respects the record limit, no retained entry ranks before an evicted one, below the wrapping ttl that is the order of timestamp minus penalty, with each entry's own ttl; the evicted ones are counted as dead. |
| FileStores.FileStore.PersistIndexEntry | include/microStore/FileStore.h:1003-1020 | With an open index file one entry is appended and flushed; otherwise nothing happens and the caller is told. |
| FileStores.FileStore.WriteIndexBulk | include/microStore/FileStore.h:1022-1051 | The rewritten index file replays to the index, in whatever order the map yields its entries; cut at any state it loads a part of the index, and all of it exactly when it is complete. |
| FileStores.FileStore.LoadIndex | include/microStore/FileStore.h:1053-1090 | The index becomes the replay of the whole entries of the file over the index it had; a missing file is reported and changes nothing. |
| FileStores.FileStore.ReplaySegment | include/microStore/FileStore.h:1380-1398 | Scanning one more segment keeps the index that of the log scanned so far. |
| FileStores.FileStore.OpenSegment | include/microStore/FileStore.h:1159-1179 | The segment is open at its end, created if missing, and the store stays consistent. |
| FileStores.FileStore.WriteJournal | include/microStore/FileStore.h:1222-1235 | The journal says the given state and segment, in one step; no other file changes. |
| FileStores.FileStore.CollectOffsets | include/microStore/FileStore.h:1457-1462 | The collected offsets are exactly those of the segment's entries whose own ttl, or else the store's, is 0 or not yet over, each once. |
| FileStores.FileStore.CopyRecord | include/microStore/FileStore.h:1474-1499 | A copied record extends compact.tmp by exactly the record's bytes, or by a prefix of them when room runs out, which is reported. |
| FileStores.FileStore.CompactSegment | include/microStore/FileStore.h:1456-1517 | One segment is copied, flushed, journaled and only then deleted; every disk state on the way is crash safe. |
| FileStores.FileStore.CopySegments | include/microStore/FileStore.h:1456-1517 | After the loop compact.tmp has all kept records and the sources are gone, or the loop stopped for lack of room with exactly the finished segments deleted; every state is crash safe, and every checkpoint between two segments is passed. |
| FileStores.FileStore.FinalizeCompaction | include/microStore/FileStore.h:1309-1361 | The sources are deleted, compact.tmp becomes segment 0, and the index and its file are rebuilt from it. |
| FileStores.FileStore.CommitAndSwap | include/microStore/FileStore.h:1539-1542 | Every state from the commit journal up to the rename is crash safe, and at every one from the rename on segment 0 is the complete copy and the commit journal is there. |
| FileStores.FileStore.FinishCompaction | include/microStore/FileStore.h:1539-1548 | After the swap segment 0 is exactly one record per kept key, the index file replays to the index, and the index is that of a scan. All states up to the rename and the last are crash safe; those in between have the commit journal and no compact.tmp, and are crash safe exactly when nothing was kept. |
| FileStores.FileStore.AbortCompaction | include/microStore/FileStore.h:1523-1537 | With no source deleted the attempt is undone and every segment is as it was; otherwise journal and copy stay for the next boot, and both are crash safe. |
| FileStores.FileStore.BeginCompaction | include/microStore/FileStore.h:1416-1444 | The start is journaled before compact.tmp is truncated, and the record limit is enforced before anything is copied; kept is every unexpired entry whose segment is still there. |
| FileStores.FileStore.Compact | include/microStore/FileStore.h:1412-1549 | For any store whose segments are whole and whose index names nothing in them but final records: on success the index is that of a scan of segment 0, which holds exactly the kept records byte for byte, none of them past its ttl or, without one, the store's; on failure before any deletion all segments are as they were, and after one the disk is in the state `RetrySafeIff` speaks of. Every disk state outside the stretch from the rename to the clearing of the journal is crash safe; on that stretch the commit journal is there, and a state is crash safe exactly when nothing was kept. |
| FileStores.FileStore.CompactAgain | include/microStore/FileStore.h:1412-1549 | A compaction that completes after one that gave up with segments deleted shows exactly the unexpired records that the limit leaves and whose segment is still there; the others are lost without any power cut. |
| FileStores.FileStore.AppendRecord | include/microStore/FileStore.h:286-305 | The record's bytes reach the active segment through the buffer; at every disk state a power cut leaves the record whole or not at all. |
| FileStores.FileStore.CommitRecord | include/microStore/FileStore.h:318-321 | The index entry is appended and flushed, and the store is consistent one record further; every state is safe against a power cut. |
| FileStores.FileStore.LogPut | include/microStore/FileStore.h:276-321 | One put record is logged and indexed, and exactly the excess over the record limit evicted, lowest-ranked first; at every disk state the index file does not get ahead of the segments, and recovery has the contents before or after. |
| FileStores.FileStore.LogTombstone | include/microStore/FileStore.h:506-532 | One tombstone is logged, the key leaves the index, and the index file follows; at every disk state recovery has the contents before or after. |
| FileStores.FileStore.IndexPut | include/microStore/FileStore.h:307-316 | The key's entry points at the new record, live plus dead grows by one, and only the record limit takes entries away. |
| FileStores.FileStore.CompactVisibly | include/microStore/FileStore.h:1412-1549 | A compaction changes no record. What goes is expired, or it is at most the excess over the record limit, with no record left ranking before it; on success segment 0 has exactly one record for each key still indexed, in the order they were logged, none of them expired, and the others are empty. Every disk state outside the swap recovers to such contents too, also when it gives up half way. |
| FileStores.FileStore.CompactIfThreshold | include/microStore/FileStore.h:1244-1259 | It compacts exactly when dead records are at least a third of the live ones, and then leaves one record per key, none of them expired. Only expired records go, and at most the excess over the record limit, lowest-ranked first; afterwards the counted dead records are 0 or fewer than a third of the live ones. The same holds of every disk state outside a swap. |
| FileStores.FileStore.RotateIfNeeded | include/microStore/FileStore.h:1181-1218 | Exactly when the write would not fit, writing moves to an empty next segment and nothing else changes, or the store compacts when there is none, to one unexpired record per key; only expired records go, and at most the excess over the record limit, lowest-ranked first, and the store stays ready for writing. |
| FileStores.FileStore.WrapAround | include/microStore/FileStore.h:1196-1217 | With every segment full the store compacts to one unexpired record per key and goes on in segment 1, or goes on in the last segment when that fails; during a cooldown it does not even try. Only expired records go, and at most the excess over the record limit, lowest-ranked first. |
| FileStores.FileStore.Put | include/microStore/FileStore.h:254-328 | Of the old records and the new one only expired ones go and, of others, at most the excess over the record limit; no record left ranks before one of those, except the new one when the limit was exceeded before. Where no compaction is due the record is behind the others of its segment and exactly the excess goes; where one is, it comes before the record, after it, or both, as the segments and the dead records demand. Segments, index file and index agree afterwards; no expired record comes through a compaction, and every record on disk has its right checksum if all had; oversized keys and values change nothing. Every disk state outside a swap recovers to the old records or to those with the new one. |
| FileStores.FileStore.Remove | include/microStore/FileStore.h:497-537 | The key is gone; of the other records only expired ones go and, of others, at most the excess over the record limit, lowest-ranked first, and none at all unless a compaction is due. No expired record comes through that, and every record on disk has its right checksum if all had. A tombstone is logged whether the key was there or not. Every disk state outside a swap recovers to the old records or to those without the key. |
| FileStores.FileStore.Get | include/microStore/FileStore.h:362-439 | It succeeds exactly when the key is visible and its record's own ttl, or else the store's, is 0 or not yet over, and returns the bytes of the value cut to the caller's room and its full length; at most the expired key itself is dropped. |
| FileStores.FileStore.Exists | include/microStore/FileStore.h:551-562 | It answers exactly whether the key is visible and its record's own ttl, or else the store's, is 0 or not yet over. |
| FileStores.FileStore.Size | include/microStore/FileStore.h:576-583 | The number of visible keys. |
| FileStores.FileStore.RecoverIfNeeded | include/microStore/FileStore.h:1261-1305 | The files end up as the journal demands in each of its cases, index and index file included; a journal stays only where the copy it waits for is missing, and compact.tmp only without one; cut short and rerun before the swap of a committed copy, it recovers the same log, also after a second power cut, since each state has everything flushed if the first had. |
| FileStores.FileStore.RebuildIndexFromSegments | include/microStore/FileStore.h:1368-1407 | The index is that of the log of all segments, and the rewritten index file replays to it; cut at any state it loads a part of it. |
| FileStores.FileStore.RecoverAndRebuild | include/microStore/FileStore.h:1261-1407 | A boot without a trusted index file ends with the index of the recovered log, whatever disk it found, and with an index file that replays to that index. |
| FileStores.FileStore.LoadOrRebuild | include/microStore/FileStore.h:171-172 | With an index file the index is its replay over what recovery left in it; without one it is that of the scan, and the new index file says so. |
| FileStores.FileStore.BootIndex | include/microStore/FileStore.h:169-172 | From any disk, a committed copy on it having no tombstones, the index is that of the copy, of the index file or of the scan, and the index file says the same; from a disk that is whole the index file is a part of the scan. |
| FileStores.FileStore.PruneAtBoot | include/microStore/FileStore.h:176-182 | A limit that evicts at boot evicts lowest-ranked entries only, counts them as dead, and rewrites the index file to replay to what is left. |
| FileStores.FileStore.Init | include/microStore/FileStore.h:142-196 | The newest segment is open at its end, and from any disk, a committed copy on it having no tombstones, the loaded index with the record limit enforced is what the next boot will load again. From a disk whose recovered segments are whole and whose index file says nothing else than they do (`Boot` shows which cuts leave one), the store is valid and shows exactly what was loaded, less the excess over the limit, lowest-ranked first. |
| FileStores.OpenOnEmptyDisk | include/microStore/FileStore.h:119-196 | A store created over an empty disk and opened is valid and shows nothing. |
| FileStores.FileStore.Close | include/microStore/FileStore.h:202-207 | Between operations nothing is buffered, so closing changes nothing on disk. |
| Reopening.Reopen | include/microStore/FileStore.h:142-207 | A store closed and opened again with the same limits has the same segments and shows all that was visible, unless the limit evicts it, lowest-ranked first. Within the limit it shows nothing else exactly when the index had every entry of the index file. |
| Reopening.EvictedComesBack | include/microStore/FileStore.h:174-182 | For every limit from 8 to 255 there is a run after which a record that a put evicted is visible again: one put more than the limit, a remove of the last key, and a boot with the same limit. |
| FileStores.CutAfterRename | include/microStore/FileStore.h:1316-1325 | For every key and value there is a run that loses them: one put, one compaction that keeps the record, and a power cut right after its rename, from which recovery has nothing. |
| FileStores.CutWhileCopying | include/microStore/FileStore.h:1286-1296 | There is a run whose boot reads the wrong place: a remove of an absent key, a put, and a compaction cut when the first segment is gone. Recovery has the record, but the index file still names its place behind the tombstone, which is behind the end of the file. |
| FileStores.FileStore.Clear | include/microStore/FileStore.h:209-250 | From any state every record is gone from the segments, the index file and the index, the counters are zero, and what was open is open again; a journal and its copy stay. Without a journal the store is an empty valid one, and a cut on the way shows nothing that was not there. |
| Ttl.ExpiryIsMonotone | include/microStore/FileStore.h:934-938 | What has expired stays expired. |
| Ttl.ExpiryIsExact | include/microStore/FileStore.h:934-938 | A record, and its index entry with it, expires exactly when the 24 bits kept of its own ttl, or else the store's ttl, have passed since its timestamp, and never without one. |
| Ttl.LazyExpiryUnobservable | include/microStore/FileStore.h:384-388 | Over any run with a clock that does not go back and records that fit the limit, whatever expired records get, exists or compaction dropped on the way, a later get or exists reports what it would report had nothing been dropped. |
| Ttl.EverlastingRunIsMap | include/microStore/FileStore.h:362-439 | Without any time-to-live and within the limit, after every event of a run the visible records are exactly those last put and not removed since. |
| Sessions.Perform | include/microStore/FileStore.h:254-562 | One call of put, remove, get or exists answers from the visible map, a query exactly until the record's own ttl, or else the store's, is over, and moves it by one step: what goes is expired, or at most the excess over the record limit, lowest-ranked first. The index file goes on having every entry a scan finds, and so does the index unless the call has an excess or drops an expired entry. |
| Sessions.Run | include/microStore/FileStore.h:254-562 | Any sequence of calls, of any length, is a run of such steps; it stops early only before a write that would take the segments beyond 2^24 bytes, or where a device without room stops a compaction. With a clock that does not go back and records that fit the limit every call is answered as by a plain map that drops nothing by itself. A query for what was last put under its key fails from the end of its ttl on, and before succeeds with the value put if the records fit the limit. Without any time-to-live the store is that map, and index, index file and segments, if they said the same at first, still do. |
| Sessions.AllOnTime | include/microStore/FileStore.h:362-439 | In any run a query for what was last put under its key fails from timestamp plus ttl on; where nothing is evicted it succeeds before, and tells the length and the bytes put. |
| Sessions.AnswersArePlain | include/microStore/FileStore.h:362-439 | Over any such run whose records fit the limit the answers of a store that drops expired records are those of one that never does. |
| Sessions.RunAndReopen | include/microStore/FileStore.h:142-562 | A session, closed and opened again, within the limit and without any time-to-live: what is then visible is exactly the plain map the session made, and index, index file and segments say the same. |
| Ttl.DroppingIsLazy | include/microStore/FileStore.h:560 | A get or exists that drops the expired entry it found is a step of such a run. |
| Caches.PutVisible | include/microStore/TypedTieredStore.h:74-107 | A put changes what is visible of its key and nothing else, through promotion and eviction; a failed one changes nothing. |
| Caches.GetVisible | include/microStore/TypedTieredStore.h:109-145 | A get returns the visible value and changes nothing visible, whether it promotes, evicts or cannot make room. |
| Caches.PutCaches | include/microStore/TypedTieredStore.h:74-107 | A put succeeds exactly when its key is cached or there is room, which there is also with failing writes when the least recent item is clean. The front item then has the key, value and priority given and is dirty; every other item still cached is unchanged. |
| Caches.GetCaches | include/microStore/TypedTieredStore.h:109-145 | A get moves a cached item to the front unchanged, and puts a clean item of priority 0 there for a key that only the backing map has, exactly when there is room. |
| Caches.RemoveVisible | include/microStore/TypedTieredStore.h:147-168 | A remove takes exactly its key away, out of both levels. |
| Caches.FlushInvisible | include/microStore/TypedTieredStore.h:508-521 | Writing an item back changes nothing visible and leaves it clean and otherwise as it was. |
| Caches.RoomInvisible | include/microStore/TypedTieredStore.h:493-506 | Making room writes back and drops the least recent item without changing anything visible. |
| Caches.SyncVisible | include/microStore/TypedTieredStore.h:198-214 | A sync changes nothing visible, nor any priority; when no write fails nothing stays dirty and the backing map is the visible map. |
| CacheRuns.RunTransparent | include/microStore/TypedTieredStore.h:74-214 | Over any run of calls, with any failures of backing writes, every answer is the one a plain map gives, and the visible map is the plain map. |
| CacheRuns.SizeIsInvisible | include/microStore/TypedTieredStore.h:28-30 | When no backing write fails, caches of any two sizes give the same answers. |
| CacheRuns.StepIsLru | include/microStore/TypedTieredStore.h:452-506 | One call leaves exactly the most recently used keys the cache has room for: only the least recent one is evicted. |
| CacheRuns.RunIsLru | include/microStore/TypedTieredStore.h:452-506 | Over any run the cached keys, in list order, are the front of the list of keys by last put or get. |
| CacheRuns.Inclusion | include/microStore/TypedTieredStore.h:28-30 | For the same calls a smaller cache always holds a prefix of a larger one's recency list. |
| SlotLists.UnlinkedLists | include/microStore/TypedTieredStore.h:463-477 | Linking a slot past its neighbours takes exactly it out of the doubly linked list, head and tail included. |
| SlotLists.LinkedFrontLists | include/microStore/TypedTieredStore.h:452-461 | Linking a slot in front makes it the head of the list, with everything else behind it. |
| SlotLists.HashedUnlinked | include/microStore/TypedTieredStore.h:433-450 | Linking one slot out of its hash chain leaves all chains well formed. |
| SlotLists.HashedFront | include/microStore/TypedTieredStore.h:426-431 | A slot in no chain becomes the head of its key's chain. |
| SlotLists.FreeSlots | include/microStore/TypedTieredStore.h:486-491 | A free slot exists exactly when fewer slots are listed than there are. |
| SlotTables.RemovedShape | include/microStore/TypedTieredStore.h:523-531 | Unlinking and resetting a slot leaves exactly the other valid slots listed and chained. |
| SlotTables.FilledShape | include/microStore/TypedTieredStore.h:95-104 | Filling and linking a free slot adds exactly it to the list and to its key's chain. |
| SlotTables.SlotKeysDiffer | include/microStore/TypedTieredStore.h:414-424 | No two valid slots hold the same key. |
| TieredStores.TieredStore.constructor | include/microStore/TypedTieredStore.h:66-69 | A new cache is empty, its lists and chains are well formed, and it shows what the backing map has. |
| TieredStores.TieredStore.ResetL1 | include/microStore/TypedTieredStore.h:369-378 | Every slot is reset, the list and all chains are empty. |
| TieredStores.TieredStore.FindL1 | include/microStore/TypedTieredStore.h:414-424 | The walk along the chain ends, and finds the slot that caches the key exactly when there is one. |
| TieredStores.TieredStore.LinkHash | include/microStore/TypedTieredStore.h:426-431 | The slot heads its bucket's chain; no other chain or link changes. |
| TieredStores.TieredStore.UnlinkHash | include/microStore/TypedTieredStore.h:433-450 | The walk finds the slot and takes exactly it out of the chains. |
| TieredStores.TieredStore.LinkLruFront | include/microStore/TypedTieredStore.h:452-461 | The list is the slot followed by the old list. |
| TieredStores.TieredStore.UnlinkLru | include/microStore/TypedTieredStore.h:463-477 | The list is the old one without the slot, whose links are reset. |
| TieredStores.TieredStore.Touch | include/microStore/TypedTieredStore.h:479-484 | The item moves to the front of the recency list and nothing else changes. |
| TieredStores.TieredStore.FreeL1Slot | include/microStore/TypedTieredStore.h:486-491 | A free slot is found exactly when the cache is not full. |
| TieredStores.TieredStore.AllocateL1Slot | include/microStore/TypedTieredStore.h:493-506 | It makes room as the abstract cache does: a free slot, or that of the least recent item once it is written back, or none. |
| TieredStores.TieredStore.FlushL1Slot | include/microStore/TypedTieredStore.h:508-521 | A dirty item is written back and marked clean, or nothing changes and the failure is reported. |
| TieredStores.TieredStore.RemoveL1Slot | include/microStore/TypedTieredStore.h:523-531 | The slot leaves list and chain and is reset; all invariants hold again. |
| TieredStores.TieredStore.FillL1Slot | include/microStore/TypedTieredStore.h:95-104 | The item is the most recent one and every invariant holds. |
| TieredStores.TieredStore.Put | include/microStore/TypedTieredStore.h:74-107 | The slots, links and flags after a put are those of the abstract put, and the visible map changes in its key only; it succeeds exactly when the key is cached or there is room, and the item in front then has the value and the priority given. |
| TieredStores.TieredStore.Get | include/microStore/TypedTieredStore.h:109-145 | The result and the new state are those of the abstract get: the visible value, the key most recent, nothing visible changed. |
| TieredStores.TieredStore.Remove | include/microStore/TypedTieredStore.h:147-168 | The key leaves both levels and nothing else does. |
| TieredStores.TieredStore.Exists | include/microStore/TypedTieredStore.h:170-183 | It answers whether the key is visible. |
| TieredStores.TieredStore.Size | include/microStore/TypedTieredStore.h:185-196 | Counting the slots the backing map does not have gives the number of visible keys. |
| TieredStores.TieredStore.Sync | include/microStore/TypedTieredStore.h:198-214 | The loop from the last slot to the first writes back every dirty item but those whose write fails; success means a clean cache and a backing map equal to the visible map. |
| TieredStores.TieredStore.Clear | include/microStore/TypedTieredStore.h:216-221 | Both levels are empty. |
| MergedIterators.MergedExact | include/microStore/TypedTieredStore.h:294-338 | The two phases together have every visible entry exactly once, with its visible value. |
| MergedIterators.MergedIterator.constructor | include/microStore/TypedTieredStore.h:243-256 | The entries ahead of a new iterator are a listing of the visible map; a closed store has none. |
| MergedIterators.MergedIterator.Advance | include/microStore/TypedTieredStore.h:258-267 | One step takes the current entry off the front of those ahead, and the positions left strictly decrease. |
| MergedIterators.MergedIterator.LoadNext | include/microStore/TypedTieredStore.h:294-338 | The loaded entry is the first one pending, and the end is reached exactly when none is. |
| Matcher.Border | include/microStore/Stream.h:396-410 | A shorter match within the matched prefix is a border of that prefix, which is what the walk-back compares. |
| Matcher.Stream.WalkBack | include/microStore/Stream.h:386-416 | After a mismatch the index becomes the length of the longest proper prefix of the target that the input read so far ends with. |
| Matcher.Stream.Feed | include/microStore/Stream.h:374-416 | One character completes the target exactly when the input read so far ends with it; otherwise the index is again the longest match. |
| Matcher.Stream.FeedAll | include/microStore/Stream.h:373-417 | The targets are fed in order up to the first the character completes. |
| Matcher.Stream.FindMulti | include/microStore/Stream.h:358-421 | It returns the target whose occurrence ends first, the lowest index among ties, having read exactly up to that end; -1 only when the whole input has no occurrence; an empty target wins at once and reads nothing. |
| Matcher.Stream.FindUntil | include/microStore/Stream.h:167-176 | It succeeds exactly when the target comes up before the terminator does, or with it. |

## Left out

- Filesystem adapters, file-name building and directory mode, logging, `dumpInfo`: replaced by the abstract disk.
- String and vector overloads, `TypedStore`, the iterator of the file store, allocators: thin forwarding.
- `HeapStore`: the backing store of the cache is a plain map whose put may fail without effect.
- `Codec`: keys and values of the cache are taken as they are, which amounts to an invertible codec; entries that fail to decode do not occur.
- Write and read failures other than lack of room for compact.tmp: all other file-system calls succeed. A failing rename is not modelled.
- FileStores.FileStore.Put: where the write does not fit and every segment is used, stated for a filesystem that has room for compact.tmp; `Compact`, `RotateIfNeeded` and `WrapAround` cover a compaction that runs out of room, and `CompactAgain` the next one. Stated for segments that stay below 2^24 bytes together.
- Puts, removes and gets between a compaction that gave up half way and the next compaction or boot.
- A put after the public `compact()` without reopening a segment: the active file is then one that was deleted. `Compact` states that the handle is stale.
- FileStores.FileStore.Init: where recovery renamed compact.tmp over deleted segments, the index is stated (`Stale`), but the store is not claimed to be valid even if that index is right, since part of the copy may be torn.
- Records with empty keys: `put` accepts them but no scan passes them (`Records.EmptyKeyStopsScan`), so the store's operations are stated for keys of at least one byte.
- Appending behind a torn tail: a boot there loads the right index (`Boot.LoggingBoots`), but a record appended behind the tail is hidden from later scans, so no operation is claimed to follow.
- A bound on the size of a segment: `remove` never rotates, so there is none.
- FileStores.FileStore.RotateIfNeeded: the cooldown after a failed compaction is a parameter, not `millis()` arithmetic.
- Eviction.EvictFirst: the partial sort is a selection loop; ties may be broken differently.
- Sessions.Run: what a caller is told once more records are put than the limit allows; each step then states what may have gone.
- The clock: the time is a parameter of every operation that looks at it. `put`'s default timestamp is the caller's business.
- FileStores.FileStore.Remove: stated for segments that stay below 2^24 bytes together; the code leaves two header fields of a tombstone uninitialised; they are arbitrary parameters here.
- Time-to-live in the cache: entries promoted by a get carry no expiry, so only ttl 0 is modelled, where nothing expires and pruning does nothing.
- TieredStores.TieredStore.Sync: the branch for a dirty slot whose key has vanished from the backing map cannot occur, as nobody else uses that map.
- Matcher.Stream.Read: a timeout counts as the end of the input, and characters are compared as they are, as for ASCII targets.
- Number parsing in `Stream`, printing, and the CRC streams of `File`.
