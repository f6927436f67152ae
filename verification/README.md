# The numstore storage engine, modelled

The transactional pager of numstore keeps pages in a file behind a clock buffer pool and a
write-ahead log, recovers with ARIES (Mohan et al., ACM Transactions on Database Systems 17(1),
1992), and hands out pages from a list of freed ones.  Above it sit tree pages that are spliced
into chains and balanced; below it latches, locks, a thread pool, a hash table and a checksum;
beside it a scanner and two strided copies that can be interrupted anywhere.  The modules follow
those parts:

- `Wal`, `LogFacts`, `Recovery`: logs the pager may write, and what they say.  An update is
  *live* until a compensation record takes it back.  The image *owed* for a page is that of its
  newest live committed update, or the page as the log found it.
- `Restart`, `Rollback`, `Transactions`: what one step of analysis, redo, undo, rollback and
  normal work does to log, tables and pages, and what it keeps.
- `Pager`: the operations themselves, in place, each proved against those steps.
- `CrashSafety`: the same pager as a machine whose runs may crash between any two steps.  Its
  main result is `RecoveryToleratesCrashes`.  `CrashAsCoded` is that machine with analysis as coded;
  its main result is `CodedRestartsEnd`.  `CrashProgress` shows that such restarts can end (`OpensIff`).
- `BufferPool`: frames, pins, page table, clock and shadow frames, proved to be a map from page to
  last saved image.
- `PageFile`: who owns which page; allocation, deletion and chains.
- `Balance`: data lists and inner nodes shifted in place, and sibling balancing.
- `SpxLatch`, `ThreadPool`, `GrLock`: three concurrency protocols over all interleavings.
- `HashTable`: the chained table and its incremental rehash.
- `Crc32c`: the table-driven checksum against polynomial long division.
- `StridedCopy`, `StridedGather`: resumable copies against their closed formulas.
- `Scanner`: the scanner against a character-by-character transducer.  `ScannerText` says, without
  naming the transducer, which text reads as which tokens: its main result is `ReadBack`.

Methods that change state in place are proved against functions and predicates on values, and the
lemmas are about those.  The protocols are machines whose invariant every step keeps, so what follows
from it holds in every reachable state of every run.

## What the code does otherwise than it says

- **Analysis updates a copy.**  Beside the scan of analysis the comments say that the transaction
  table's entry is updated; the code always updates a descriptor it has just appended
  (`libs/nspager/pager.c:1875-1892`), which the table refers to only on a transaction's first record.
  Every entry therefore keeps `undo_next` 0, every transaction is closed as finished, and undo does
  nothing.  The model has both readings, chosen by a parameter `lookup`: false is the code, true the
  comments.  `AsCodedIsRightIff` says exactly when the code is right all the same, and
  `AsCodedCounterexample` gives a log on which it is not.  `CrashSafety` proves crash-tolerant recovery
  for the reading of the comments; `CrashAsCoded` says what the code comes to over the same runs, and
  that it meets the invariant exactly when nothing is left to undo (`CodedAnalyzeKeepsIff`).
- **Rollback reads the log file.**  A record still in the log buffer reads as the end of the log, and
  rollback then stops and reports success (`RollbackTo`, `RollbackVerdict`, `RollbackUnflushed`).
- **Redo with nothing to redo fails.**  With an empty dirty page table the least recLSN is `(lsn)-1`,
  to which the log cannot seek; restart succeeds exactly if the log holds an update (`RestartWith`).  A
  crash before the root page is logged leaves such a log (`NothingToRedo`), and then no later restart
  succeeds either (`NeverOpens`, `OpensIff`).
- **A compensation record may not point to LSN 0.**  The writer asserts so, and the assertion fails for
  the first update of the transaction that begins the log (`ClrUndoNextZeroIff`).
- **Rollback is not seen by the dirty page table.**  A compensation record does not enter its page, so
  it keeps the table sound if and only if the page is in it (`ClrKeepsDptIff`; `RollbackBreaksDpt` shows a
  failure).  Soundness is proved over begin, save, evict and commit, and over a whole rollback exactly
  when each page compensated is in the table at its turn or is written out later (`RollbackTo`).
- **A savepoint can go stale**: after a rollback below it, rolling back to it changes nothing
  (`StaleSavepoint`, `SavepointRestoredIff`).
- **Two threads that upgrade the same latch wait for each other for ever**, as does one that upgrades while
  another is pending; there is no other deadlock (`ClearsIff`, `UpgradersDeadlock`).
- **The scanner can write two tokens when it made room for one**, exactly in the case `PairAhead`
  describes; **after an error it loops for ever** on any character but a semicolon (mode `Hung`); and a
  float that ends in its point meets an assertion (mode `Crashed`).

## Assumptions

- Undo restores whole pages, so the page-level isolation it needs is part of what a log may be: a page
  with a live update of an unfinished transaction is written by no other transaction (`CanAppend`,
  `Isolated`).  The root page, which every allocation writes, does not meet it unless allocations are
  serialised.
- Recovery starts at the first record (`master_lsn` is 0).  An LSN is a record's position in the log;
  only the order of LSNs matters to the pager, and the first record has LSN 0 in both.
- An image is a page without its page-LSN field, which the pager overwrites on every application.
- Class `Pager` holds the pages its callers see as a map; `BufferPool` proves that the pool is one, and
  `PoolFetches` that what it writes to the file on the way is an eviction as `Fetch` has it.
  `Fetch` may evict any pages at any time.
- Log appends may reach stable storage early; a crash keeps any prefix that holds what was flushed.
- Pager operations are atomic; the latches that make them so are modelled in `SpxLatch`.
- A missing page number and the end of a chain are `Null` of type `Link`.

## Model

| member | source | states |
|---|---|---|
| `Wal.PrefixStable` | `libs/nspager/pager.c:2146-2261` | what a log prefix says of its transactions, pages and live updates does not depend on the records after it |
| `Wal.LegalPrefix` | `libs/nspager/pager.c:1643-1782` | a prefix of a log the pager may write, such as the part a crash leaves, is one the pager may have written |
| `Wal.LegalAppend` | `libs/nspager/pager.c:1643-1782` | a record that may follow keeps the whole log one the pager may have written |
| `LogFacts.ClrTakesBackOne` | `libs/nspager/pager.c:1674-1722` | a compensation record takes back the newest live update of its transaction and no other update |
| `LogFacts.ResolveLast` | `libs/nspager/pager.c:2169-2238` | the chain that starts at a transaction's last record leads, through undo_next of compensation records, to its newest live update |
| `LogFacts.NextHead` | `libs/nspager/pager.c:1674-1722` | after a compensation record the newest live update is the one that was newest before the update taken back |
| `LogFacts.IsolatedOn` | `libs/nspager/pager.c:1207-1262` | two live updates of one page belong to one transaction, or the older one's transaction had committed |
| `LogFacts.HeadIsTop` | `libs/nspager/pager.c:2171-2225` | the newest live update of an unfinished transaction on a page is the newest live update of that page, so full-page undo is safe |
| `LogFacts.Contents` | `libs/nspager/pager.c:1207-1262` | the last image logged for a page is that of its newest live update, and every live update's undo image is what lies under it |
| `LogFacts.LastImage` | `libs/nspager/pager.c:2033-2142` | the last image logged for a page is that of its newest live update |
| `LogFacts.UndoImage` | `libs/nspager/pager.c:2171-2201` | the undo image of a live update is the page as the older live updates leave it |
| `Recovery.NothingLeftToUndo` | `libs/nspager/pager.c:2146-2261` | once no unfinished transaction has a live update on a page, the last image logged for it is the committed one |
| `Recovery.OnlyCommitMatters` | `libs/nspager/pager.c:791-835` | no record other than a commit changes what recovery owes for a page |
| `Recovery.OwedUnchanged` | `libs/nspager/pager.c:2146-2261` | nor does any run of records without a commit |
| `Recovery.CommitIsAtomic` | `libs/nspager/pager.c:791-835` | a commit makes every page its transaction has a live update on owed as it stands, and leaves every other page owed as before |
| `Recovery.CommitShows` | `libs/nspager/pager.c:791-835` | the first half: the written pages become owed as they stand |
| `Recovery.CommitLeaves` | `libs/nspager/pager.c:791-835` | the second half: the other pages stay owed as they were |
| `Recovery.OwedStable` | `libs/nspager/pager.c:2033-2142` | what a log prefix owes does not depend on the records after it |
| `Recovery.AppendClr` | `libs/nspager/pager.c:1674-1722` | writing the compensation record for the undo pointer keeps the log legal, takes back exactly that update, and leaves the table entry in agreement with the log |
| `Recovery.ClrMayFollow` | `libs/nspager/pager.c:1674-1722` | that record may follow the log, and its transaction stays unfinished |
| `Recovery.SkipClr` | `libs/nspager/pager.c:1724-1729` | following a compensation record lowers the undo pointer and keeps the entry in agreement with the log |
| `Recovery.AppendEnd` | `libs/nspager/pager.c:2241-2251` | the end record of a transaction with nothing left to undo keeps the log legal and finishes the transaction alone |
| `Recovery.PointerFacts` | `libs/nspager/pager.c:2146-2261` | an undo pointer leads to a begin, update or compensation record of its own transaction, and each link leads further back |
| `Restart.FirstUpdatesCover` | `libs/nspager/pager.c:1909-1916` | a table holding each page with its first update covers everything the pages may miss |
| `Restart.RedoneStep` | `libs/nspager/pager.c:2051-2137` | one record of redo, skipping by recLSN and by page LSN, loses nothing and keeps the table covering what is still missing |
| `Restart.RedoneAll` | `libs/nspager/pager.c:2033-2142` | at the end of the scan every page is as the last record that writes it left it |
| `Restart.ReplayIdempotent` | `libs/nspager/pager.c:2033-2142` | repeating history twice is repeating it once |
| `Restart.DptAtFirst` | `libs/nspager/pager.c:1895-1933` | the scan enters every page with its first write, although compensation records never enter the table |
| `Restart.AttDomain` | `libs/nspager/pager.c:1863-1997` | after the scan the table holds exactly the transactions that began and did not end, in either reading |
| `Restart.AttScanned` | `libs/nspager/pager.c:1867-1985` | in the reading of the comments, where the table's entry is the one updated, each entry says what the log says of its transaction |
| `Restart.AttCoded` | `libs/nspager/pager.c:1875-1892` | as coded, every entry still reads as its transaction's begin record left it |
| `Restart.ScannedTracks` | `libs/nspager/pager.c:1867-1985` | in the reading of the comments, an entry to be undone leads to its transaction's newest live update |
| `Restart.EndsMayFollow` | `libs/nspager/pager.c:1792-1816` | end records may follow a log if each is the first of its transaction, which has committed or has nothing left to undo |
| `Restart.HeadPastEnds` | `libs/nspager/pager.c:1792-1816` | end records take nothing back |
| `Restart.EndsAreLegal` | `libs/nspager/pager.c:1792-1816` | the end records analysis writes, in the reading of the comments, may follow the log it scanned |
| `Restart.AnalysisLeavesUndoTable` | `libs/nspager/pager.c:2000-2024` | in the reading of the comments, with the finished transactions closed and dropped, the table holds exactly the unfinished ones, each leading to what must be undone |
| `Restart.UndoRoundKeeps` | `libs/nspager/pager.c:2151-2257` | a round of undo keeps log, table and pages in step, changes only pages with a loser's live update, and moves only its own transaction, down or out |
| `Restart.RoundFalls` | `libs/nspager/pager.c:2146-2261` | a round for the greatest undo pointer keeps undo going and leaves only lesser pointers, so undo ends |
| `Restart.UndoFalls` | `libs/nspager/pager.c:2151-2258` | likewise from any log, table and pages in agreement, as a crash may leave them |
| `Restart.OneEnd` | `libs/nspager/pager.c:2241-2251` | no transaction is ended twice |
| `Restart.EveryoneEnded` | `libs/nspager/pager.c:2146-2261` | when undo has emptied the table, every transaction of the log that was found has its end record |
| `Restart.AllFinished` | `libs/nspager/pager.c:2146-2261` | with nobody unfinished, up-to-date pages hold the committed images |
| `Restart.OwedIsOldestUndo` | `libs/nspager/pager.c:2171-2201` | the undo image of the oldest live update of an unfinished transaction is what is owed for the page |
| `Restart.AsCodedIsRightIff` | `libs/nspager/pager.c:1875-1892` | restart as coded leaves a page right if and only if the unfinished transactions' live updates on it cancel out |
| `Restart.AsCodedUndoesNothing` | `libs/nspager/pager.c:1863-2014` | as coded, every unended transaction counts as finished after the scan, so undo has no work |
| `Restart.AsCodedPages` | `libs/nspager/pager.c:2033-2142` | so the pages a restart as coded ends with are the owed ones exactly where the losers cancel out |
| `Restart.CodedEndsOf` | `libs/nspager/pager.c:1792-1816` | as coded, exactly the transactions without an end record are given one, finished or not |
| `Restart.CodedEndsLegalIff` | `libs/nspager/pager.c:1792-1816` | the end records the code writes leave a log it may have written if and only if no unfinished transaction has anything left to undo |
| `Restart.CodedEndRefused` | `libs/nspager/pager.c:1792-1816` | the end record of a transaction with a live update may not follow the log |
| `Restart.AsCodedCounterexample` | `libs/nspager/pager.c:1863-2014` | a log with an unfinished update after which restart as coded keeps the uncommitted image |
| `Restart.DptNonEmpty` | `libs/nspager/pager.c:1909-1916` | the table of analysis is empty exactly when the log holds no update |
| `Restart.NothingToRedo` | `libs/nspager/pager.c:2033-2050` | a log cut off before its first update: the table is empty, although no page needs anything |
| `Rollback.RoundKeeps` | `libs/nspager/pager.c:1657-1775` | a round of rollback takes back one update of the transaction above the savepoint, or follows a link; the undo pointer falls either way |
| `Rollback.RollbackDone` | `libs/nspager/pager.c:1643-1782` | at the end the live updates are those of before without the transaction's own above the savepoint, with one record written for each |
| `Rollback.RollbackVerdict` | `libs/nspager/pager.c:1643-1782` | the updates above the savepoint are gone if and only if the undo pointer was on stable storage or there were none |
| `Rollback.RolledBackImage` | `libs/nspager/pager.c:1674-1722` | a rolled-back page shows what the transaction found when it first wrote it after the savepoint |
| `Rollback.PagesRolledBack` | `libs/nspager/pager.c:1643-1782` | after a rollback each page the transaction wrote past the savepoint shows what it found there, every other page what it showed |
| `Rollback.OtherImage` | `libs/nspager/pager.c:1674-1722` | a page without such an update keeps its image |
| `Rollback.SavepointRestoredIff` | `libs/nspager/pager.c:1643-1782` | the transaction's live updates up to the savepoint are those of that moment if and only if no earlier rollback went below it |
| `Rollback.TakenBackOn` | `libs/nspager/pager.c:1674-1722` | an update that is no longer live was taken back by a record of its transaction that writes its page |
| `Rollback.RolledBackIsBelow` | `libs/nspager/pager.c:1674-1722` | a page no other transaction wrote since the savepoint is rolled back to what is still live of it up to there |
| `Rollback.PageAsAtSavepointIff` | `libs/nspager/pager.c:1643-1782` | rollback brings such a page back as it stood at the savepoint if and only if, just before it, what was still live up to there showed that image |
| `Rollback.KeptShowsSavepoint` | `libs/nspager/pager.c:1643-1782` | it did whenever no rollback since the savepoint has gone below it |
| `Rollback.PageAsAtSavepoint` | `libs/nspager/pager.c:1643-1782` | after rollback to a savepoint not gone below, a page no other transaction wrote since is as it stood there, first written before it or after it |
| `Rollback.StaleSavepoint` | `libs/nspager/pager.c:1643-1782` | a log on which an earlier rollback went below the savepoint: nothing of the transaction is live, and the page no longer shows what it did there |
| `Rollback.RollbackUnflushed` | `libs/nspager/pager.c:1657-1669` | a log on which rollback stops at once, its undo pointer not being on stable storage, and an update above the savepoint stays |
| `Rollback.ClrUndoNextZeroIff` | `libs/nspager/wal_file.c:159-165` | undo_next of a compensation record is 0, which the writer asserts against, exactly when it takes back the first update of the transaction that begins the log |
| `Transactions.AppendBegin` | `libs/nspager/pager.c:760-788` | a begin record with a fresh transaction id starts an entry in agreement with the log |
| `Transactions.AppendUpdate` | `libs/nspager/pager.c:1207-1262` | a save on a page no other unfinished transaction has written keeps the log legal and its entry in agreement |
| `Transactions.AppendCommit` | `libs/nspager/pager.c:791-835` | a commit record commits its transaction and finishes it |
| `Transactions.RunningTableAfter` | `libs/nspager/pager.c:791-835` | a record of one transaction leaves every other entry in agreement with the log |
| `Transactions.SaveKeepsDpt` | `libs/nspager/pager.c:1207-1262` | a save keeps the dirty page table sound: the first one since the page was written out enters it |
| `Transactions.EvictKeepsDpt` | `libs/nspager/pager.c:191-230` | so does writing pages out and dropping them from the table |
| `Transactions.OtherKeepsDpt` | `libs/nspager/pager.c:791-835` | so do the records that write no page |
| `Transactions.SoundTableCovers` | `libs/nspager/pager.c:2033-2142` | with a sound table, every update missing from disk is at or above its page's recLSN |
| `Transactions.ClrKeepsDptIff` | `libs/nspager/pager.c:1674-1722` | a compensation record keeps the dirty page table sound if and only if the table holds its page |
| `Transactions.ClrMakesStale` | `libs/nspager/pager.c:1674-1722` | in a table sound but for some stale pages, it makes its page stale exactly if the table does not hold it |
| `Transactions.WritingHeals` | `libs/nspager/pager.c:191-230` | writing a stale page out makes the table sound for it again |
| `Transactions.NothingWritten` | `libs/nspager/pager.c:1643-1782` | with nothing written out on the way, a rollback leaves no page stale if and only if every page it compensates was in the table |
| `Transactions.RollbackBreaksDpt` | `libs/nspager/pager.c:1674-1722` | a log on which a rollback leaves a page absent from the table and not current on disk |
| `Pager.AriesCtx.TxnUpdate` | `libs/nspager/pager.c:1901-1907` | an update of a descriptor reaches the table only if the table refers to that descriptor |
| `Pager.AriesCtx.Enter` | `libs/nspager/pager.c:1869-1892` | a fresh descriptor is appended and entered unless its transaction is there; answers which one the scan updates, as coded and as commented |
| `Pager.AriesCtx.RemoveTxn` | `libs/nspager/txn_table.c:172-197` | removes one transaction from the table and no other |
| `Pager.AriesCtx.MaxUndoLsn` | `libs/nspager/txn_table.c:264-291` | the greatest undo_next over the candidates for undo, or nothing if there is none |
| `Pager.AriesCtx.MinRecLsn` | `libs/nspager/dirty_page_table.c:319-343` | the least recLSN of the table, and (lsn)-1 exactly when it is empty |
| `Pager.UndoOutcome` | `libs/nspager/pager.c:2146-2261` | an undo that has come to its end has achieved what restart owes |
| `Pager.AnalysisOutcome` | `libs/nspager/pager.c:1820-2029` | after analysis, undo starts on every unfinished transaction, or as coded on none |
| `Pager.OthersUntouched` | `libs/nspager/pager.c:2146-2261` | pages without a live update of an unfinished transaction are as redo left them |
| `Pager.NothingOwed` | `libs/nspager/pager.c:2146-2261` | with the undo table empty every transaction is ended and every page is the committed one |
| `Pager.Pager.Append` | `libs/nspager/wal.c:207-225` | a record goes to the end of the log, of which a longer prefix may reach stable storage |
| `Pager.Pager.FlushAll` | `libs/nspager/pager.c:1526-1533` | the whole log is on stable storage |
| `Pager.Pager.Fetch` | `libs/nspager/pager.c:191-230` | reading a page returns its last saved image; the pages evicted on the way are written out as they are and leave the table, every disk page stays within the flushed log, and the table stays sound |
| `Pager.PoolFetches` | `libs/nspager/pager.c:191-314` | what the buffer pool does to the file on the way to a page is such an eviction |
| `Pager.Pager.BeginTxn` | `libs/nspager/pager.c:760-788` | a fresh id, its begin record and its entry; the pager's invariant and the table stay sound |
| `Pager.Pager.Save` | `libs/nspager/pager.c:1207-1262` | one update record with the old and new image, the page under its LSN, the entry moved to it, and the page in the dirty page table; the invariant is kept |
| `Pager.Pager.LogCommit` | `libs/nspager/pager.c:805-823` | the commit record is on stable storage before the end record is written |
| `Pager.Pager.CommitTxn` | `libs/nspager/pager.c:791-835` | succeeds exactly for a running transaction, returns only with its commit record on stable storage, and drops it from the table |
| `Pager.Pager.RollbackImage` | `libs/nspager/pager.c:1674-1722` | one compensation record and the undo image under its LSN |
| `Pager.Pager.RollbackOne` | `libs/nspager/pager.c:1670-1774` | one round is RollbackRound on log, entry and pages; the dirty page table is sound after it if and only if it holds the page compensated |
| `Pager.Pager.RollbackTurn` | `libs/nspager/pager.c:1657-1775` | the body of the loop keeps the pager's invariant and the account of stale pages, and lowers the undo pointer |
| `Pager.RoundDpt` | `libs/nspager/pager.c:1674-1722` | a round that takes an update back adds its page to the stale ones exactly if the table does not hold it |
| `Pager.RoundDptIff` | `libs/nspager/pager.c:1674-1722` | so it keeps the table sound if and only if the table holds the page |
| `Pager.Pager.RollbackTo` | `libs/nspager/pager.c:1643-1782` | when the undo pointer is on stable storage, takes back exactly the live updates above the savepoint, one record each, and leaves every page as the transaction found it; otherwise changes nothing while reporting success; the dirty page table is sound after it if and only if every page compensated was in the table at its turn or has been written out since |
| `Pager.Pager.AnalyzeTxn` | `libs/nspager/pager.c:1867-1990` | one record's effect on the table, as coded and as commented |
| `Pager.Pager.AnalyzeRecord` | `libs/nspager/pager.c:1863-1991` | one record of the scan: tables, and the greatest of the transaction ids met |
| `Pager.Pager.CloseEntry` | `libs/nspager/pager.c:1792-1816` | a finished entry gets its end record and is marked done; others are left alone |
| `Pager.Pager.FlushEnds` | `libs/nspager/pager.c:1792-1816` | exactly one end record for each finished entry |
| `Pager.Pager.RemoveDone` | `libs/nspager/pager.c:2016-2024` | drops exactly the entries marked done |
| `Pager.Pager.ScanLog` | `libs/nspager/pager.c:1852-1997` | the tables are those of the whole log |
| `Pager.Pager.CloseAnalysis` | `libs/nspager/pager.c:2000-2024` | writes the end records and keeps exactly the unfinished entries |
| `Pager.Pager.RestartAnalysis` | `libs/nspager/pager.c:1820-2029` | the whole of analysis: end records, tables, and where redo starts |
| `Pager.Pager.RestartRedo` | `libs/nspager/pager.c:2033-2142` | every page ends as its last logged image; it fails exactly when the table is empty |
| `Pager.Pager.RedoOne` | `libs/nspager/pager.c:2051-2137` | one record of redo loses nothing |
| `Pager.Pager.RedoImage` | `libs/nspager/pager.c:2057-2115` | a page whose LSN is older takes the image under the record's LSN; otherwise its recLSN is raised past what the page holds |
| `Pager.Pager.UndoImage` | `libs/nspager/pager.c:2171-2225` | one update undone under a compensation record that is on stable storage before the page carries its LSN |
| `Pager.Pager.UndoRecord` | `libs/nspager/pager.c:2169-2257` | one round is UndoRound on log, table and pages |
| `Pager.Pager.UndoMax` | `libs/nspager/pager.c:2151-2258` | the round for the greatest undo pointer keeps undo going with lesser pointers only |
| `Pager.Pager.RestartUndo` | `libs/nspager/pager.c:2146-2261` | empties the table: every loser undone and ended, or nothing done if there is none |
| `Pager.Pager.Recover` | `libs/nspager/pager.c:2265-2286` | the three phases together, as coded and as commented; fails exactly when the log holds no update |
| `Pager.Pager.RestartWith` | `libs/nspager/pager.c:482-535` | opening on a surviving log: the outcome of recovery, as coded each logged page being the owed one if and only if the losers cancel out on it, and a next transaction id one above the greatest logged |
| `CrashSafety.StepKeeps` | `libs/nspager/pager.c:2033-2261` | no step of normal work, of a restart with the analysis of the comments, or of a crash in either leaves the durability invariant |
| `CrashSafety.WorkKeeps` | `libs/nspager/pager.c:1207-1262` | nor does any record normal work appends |
| `CrashSafety.CrashKeeps` | `libs/nspager/pager.c:2677-2691` | nor a crash that keeps the disk and any prefix of the log holding what was flushed |
| `CrashSafety.AnalyzeKeeps` | `libs/nspager/pager.c:1820-2029` | nor analysis in the reading of the comments, including one that finds nothing to redo |
| `CrashSafety.RedoKeeps` | `libs/nspager/pager.c:2051-2137` | nor a record of redo |
| `CrashSafety.UndoKeeps` | `libs/nspager/pager.c:2151-2258` | nor a round of undo |
| `CrashSafety.EvictKeeps` | `libs/nspager/pager.c:191-230` | nor an eviction, with the log flushed first except while restarting |
| `CrashSafety.OwedSince` | `libs/nspager/pager.c:2146-2261` | what is owed does not move while restarts come and go |
| `CrashSafety.RestartEndsRight` | `libs/nspager/pager.c:2265-2286` | a restart whose analysis is that of the comments, once it completes, holds every page as it is owed |
| `CrashSafety.RecoveryToleratesCrashes` | `libs/nspager/pager.c:2033-2261` | after any number of crashes at any point of redo and undo, with any pages written out on the way, the restart that completes leaves what the first surviving log owes, analysis being that of the comments |
| `CrashSafety.NeverOpens` | `libs/nspager/pager.c:2033-2050` | while the log holds no update, no number of restarts in either reading ever completes |
| `CrashSafety.CommitIsDurable` | `libs/nspager/pager.c:791-835` | a commit whose record was flushed survives every step, crashes included |
| `CrashSafety.EveryStateIsSafe` | `libs/nspager/pager.c:191-230` | every state of every run of work, crashes and restarts satisfies the invariant: no disk page is ahead of the flushed log |
| `CrashAsCoded.TablesPastEnds` | `libs/nspager/pager.c:1863-2014` | end records change neither the dirty page table nor, as coded, that every transaction reads as finished |
| `CrashAsCoded.CodedAnalyze` | `libs/nspager/pager.c:1820-2029` | analysis as coded keeps the invariant of such restarts, over logs that end in end records of earlier ones |
| `CrashAsCoded.CodedStep` | `libs/nspager/pager.c:2033-2261` | so does every other step, a crash or an eviction included |
| `CrashAsCoded.CodedRestartsEnd` | `libs/nspager/pager.c:2033-2261` | after any number of crashes and evictions, a restart as coded that completes leaves every page as the first surviving log last logged it, which is the owed image if and only if the losers cancel out on it |
| `CrashAsCoded.CodedAnalyzeKeepsIff` | `libs/nspager/pager.c:1820-2029` | analysis as coded keeps the invariant of crash safety if and only if no unfinished transaction has anything left to undo |
| `CrashAsCoded.CodedNobodyLeft` | `libs/nspager/pager.c:1792-1816` | as coded, no transaction is unfinished once analysis has written its end records |
| `BufferPool.PoolKept` | `libs/nspager/pager.c:191-314` | a change to a frame and its shadow that is sound for the two is sound for the pool |
| `BufferPool.UnpinnedIsMapped` | `libs/nspager/pager.c:191-200` | an unpinned present frame is in the page table and has no shadow, as eviction asserts |
| `BufferPool.EvictKeeps` | `libs/nspager/pager.c:191-230` | eviction keeps the pool sound and the contents its callers see |
| `BufferPool.AccessIsFree` | `libs/nspager/pager.c:294-301` | clearing an access bit changes nothing the pool promises |
| `BufferPool.LoadKeeps` | `libs/nspager/pager.c:947-988` | so does loading a page into a free frame |
| `BufferPool.PinKeeps` | `libs/nspager/pager.c:917-998` | pins equal live handles after one more or one less |
| `BufferPool.ShadowKeeps` | `libs/nspager/pager.c:1076-1119` | giving a page a shadow frame keeps the pool sound and is not seen |
| `BufferPool.WriteKeeps` | `libs/nspager/pager.c:1076-1119` | writing to the shadow is not seen |
| `BufferPool.UnshadowKeeps` | `libs/nspager/pager.c:1255-1276` | dropping the shadow makes exactly the chosen image the page |
| `BufferPool.LooseKeeps` | `libs/nspager/pager.c:331-349` | a frame reserved for a page that does not exist yet is in nobody's way |
| `BufferPool.EnterKeeps` | `libs/nspager/pager.c:396-412` | the new page enters the pool with its shadow, and nothing else changes |
| `BufferPool.SweptAll` | `libs/nspager/pager.c:265-314` | a sweep of twice the pool that found nothing has seen every frame present and pinned |
| `BufferPool.SweptNext` | `libs/nspager/pager.c:273-307` | one step of the sweep keeps what is known of the frames passed, once or twice |
| `BufferPool.AnotherFree` | `libs/nspager/pager.c:345-367` | once one frame has been taken, another can be had exactly if two could before |
| `BufferPool.PassingNext` | `libs/nspager/pager.c:287-301` | a frame the sweep passes joins those passed, and a second time around only pinned ones are passed |
| `BufferPool.PassingFound` | `libs/nspager/pager.c:273-307` | the frame it takes is the first of its kind, counted once around |
| `BufferPool.NextPos` | `libs/nspager/pager.c:287-301` | the clock hand after one step |
| `BufferPool.Pool.constructor` | `libs/nspager/pager.c:425-479` | a new pool shows the file and holds nothing |
| `BufferPool.Pool.Evict` | `libs/nspager/pager.c:191-230` | writes a dirty page back, frees its frame, and leaves contents and all other frames alone |
| `BufferPool.Pool.ClearAccess` | `libs/nspager/pager.c:294-301` | changes one access bit |
| `BufferPool.Pool.Look` | `libs/nspager/pager.c:273-307` | one step of the clock: takes the frame if and only if it is free, or unpinned with its access bit off; otherwise passes it, with the access bit off if it is unpinned |
| `BufferPool.Pool.Reserve` | `libs/nspager/pager.c:265-314` | takes the first frame in clock order that is free, or unpinned with its access bit off; if there is none, the first unpinned one; if there is none either, reports a full pool; no page but the one in that frame leaves the pool, and it is written out if it is dirty |
| `BufferPool.Pool.Sweep` | `libs/nspager/pager.c:273-314` | the frames passed are those in clock order, and the one taken is that choice |
| `BufferPool.Pool.SweepTurn` | `libs/nspager/pager.c:273-307` | one turn of the sweep, with what is known of the frames passed |
| `BufferPool.Pool.GetMapped` | `libs/nspager/pager.c:930-944` | another handle on a cached page reads its last saved image |
| `BufferPool.Pool.Load` | `libs/nspager/pager.c:947-988` | a page read into the frame the clock found, pinned once, with its access bit on and clean; the hand moves on |
| `BufferPool.Pool.Get` | `libs/nspager/pager.c:917-998` | reading page n returns its last saved contents; reports a full pool exactly when every frame is pinned; a page not in the pool goes to the frame the clock chooses, and no page but the one in it leaves |
| `BufferPool.Pool.MakeWritable` | `libs/nspager/pager.c:1076-1119` | a write handle with a shadow, in the frame the clock chooses, holding a copy of the page; fails exactly when every frame is pinned |
| `BufferPool.Pool.AddShadow` | `libs/nspager/pager.c:1092-1118` | the shadow is a copy and is not seen |
| `BufferPool.Pool.Write` | `libs/nspager/pager.c:1076-1119` | goes to the shadow alone |
| `BufferPool.Pool.Save` | `libs/nspager/pager.c:1207-1253` | what the shadow holds becomes the page, and no other page changes |
| `BufferPool.Pool.CancelW` | `libs/nspager/pager.c:1266-1276` | the page stays as it was |
| `BufferPool.Pool.DropShadow` | `libs/nspager/pager.c:1255-1276` | frees the shadow and keeps every other handle live |
| `BufferPool.Pool.NewExtend` | `libs/nspager/pager.c:317-419` | a page at the end of the file with its shadow if and only if two frames are not both present and pinned; otherwise no page changes |
| `BufferPool.Pool.ReserveLoose` | `libs/nspager/pager.c:331-349` | marks the frame found as taken |
| `BufferPool.Pool.DropLoose` | `libs/nspager/pager.c:361-367` | gives it back when no second frame is found |
| `BufferPool.Pool.EnterNew` | `libs/nspager/pager.c:384-412` | enters the new page and its shadow |
| `BufferPool.Pool.Release` | `libs/nspager/pager.c:1502-1523` | gives up one handle, saving first if it writes |
| `BufferPool.Pool.Unpin` | `libs/nspager/pager.c:1143-1173` | one pin and one handle less |
| `PageFile.Popped` | `libs/nspager/pager.c:1303-1330` | taking the first freed page leaves a duplicate-free list of exactly the other freed pages |
| `PageFile.Pushed` | `libs/nspager/pager.c:1391-1412` | freeing a page in use puts exactly it at the head of the list |
| `PageFile.OwnershipKept` | `libs/nspager/pager_routines.c:38-339` | whatever is done to one chain leaves every other chain whole and the pages in use shared out over the chains |
| `PageFile.ChainStarted` | `libs/nspager/pager.c:1279-1341` | a page allocated by itself starts a chain of its own |
| `PageFile.ChainFrame` | `libs/nspager/pager_routines.c:38-339` | a chain is not disturbed by changes to other pages |
| `PageFile.Inserted` | `libs/nspager/pager_routines.c:1133-1147` | linking a new page between two neighbours lengthens the doubly linked chain by exactly it |
| `PageFile.Dropped` | `libs/nspager/pager_routines.c:38-63` | unlinking a page shortens the chain by exactly it |
| `PageFile.FreedContents` | `libs/nspager/pager_routines.c:308-339` | deleting a chain pushes every page of it exactly once |
| `PageFile.Unused` | `libs/nspager/pager.c:1303-1330` | a page that is free or beyond the file is in no chain |
| `PageFile.File.constructor` | `libs/nspager/pager.c:425-479` | a new file holds the root page alone |
| `PageFile.File.New` | `libs/nspager/pager.c:1279-1341` | reuses the page freed last, or grows the file when no page is free; every page stays root, in use or freed exactly once |
| `PageFile.File.Delete` | `libs/nspager/pager.c:1366-1420` | the freed page becomes the head of the list |
| `PageFile.File.LinkUp` | `libs/nspager/include/numstore/pager/page_delegate.h:379-403` | links two neighbours both ways, either possibly missing |
| `PageFile.File.NewNext` | `libs/nspager/pager_routines.c:1133-1147` | inserts one new page right after the current one |
| `PageFile.File.NewPrev` | `libs/nspager/pager_routines.c:1261-1275` | inserts one new page right before the current one |
| `PageFile.File.DeleteAndFillNext` | `libs/nspager/pager_routines.c:38-63` | drops exactly the next page from the chain, frees it, and answers the new next page |
| `PageFile.File.DeleteAndFillPrev` | `libs/nspager/pager_routines.c:173-198` | drops exactly the previous page, frees it, and answers the new previous page |
| `PageFile.File.DeleteChain` | `libs/nspager/pager_routines.c:308-339` | frees exactly the chain, wherever it starts in it, in the order the source frees it |
| `Balance.DataList.Append` | `libs/nspager/data_list.c:535-557` | appends as many bytes as fit |
| `Balance.DataList.CutLeft` | `libs/nspager/data_list.c:779-786` | drops the first bytes and keeps the rest in order |
| `Balance.DataList.ShiftRight` | `libs/nspager/data_list.c:931-943` | opens a gap at the front and keeps the bytes in order behind it |
| `Balance.MoveLeft` | `libs/nspager/data_list.c:846-863` | moves bytes from the front of one list to the end of another; the two in a row read as before |
| `Balance.MoveRight` | `libs/nspager/data_list.c:1010-1033` | moves bytes from the end of one list to the front of another; the two in a row read as before |
| `Balance.InnerNode.PushEnd` | `libs/nspager/include/numstore/pager/inner_node.h:265-270` | appends one pair |
| `Balance.InnerNode.CutLeft` | `libs/nspager/inner_node.c:921-939` | drops the first pairs, shifting the rest forward one by one |
| `Balance.InnerNode.PushLeft` | `libs/nspager/inner_node.c:545-563` | opens a gap at the front, shifting from the last pair down |
| `Balance.InnerNode.ChooseLidx` | `libs/nspager/inner_node.c:817-841` | the child whose bytes hold the position, or the last one, with the bytes to its left |
| `Balance.MovePairsLeft` | `libs/nspager/inner_node.c:410-423` | moves pairs to the left neighbour; the two in a row read as before |
| `Balance.MovePairsRight` | `libs/nspager/inner_node.c:672-694` | moves pairs to the right neighbour; the two in a row read as before |
| `Balance.CopyPairs` | `libs/nspager/inner_node.c:685-691` | fills the gap with the last pairs of the source node |
| `Balance.PageMoveLeft` | `libs/nspager/include/numstore/pager/page_delegate.h:331-352` | the same for either kind of page |
| `Balance.PageMoveRight` | `libs/nspager/include/numstore/pager/page_delegate.h:355-376` | the same for either kind of page |
| `Balance.BalanceWithPrev` | `libs/nspager/pager_routines.c:2468-2499` | keeps the two pages' contents in order, meets every capacity assertion, and ends with the page empty or half full; the sibling ends half full exactly if it was or took in enough |
| `Balance.BalanceWithNext` | `libs/nspager/pager_routines.c:2637-2668` | the same with the page after |
| `SpxLatch.StepKeeps` | `libs/nscore/spx_latch.c:58-245` | no interleaving of the atomic steps leaves the invariant: the word exactly encodes sharers, pending thread and exclusive holder, through upgrade and downgrade |
| `SpxLatch.Reading` | `libs/nscore/spx_latch.c:58-245` | what each test of the word says of the threads |
| `SpxLatch.RunKeeps` | `libs/nscore/spx_latch.c:58-245` | the invariant holds in every state of every run |
| `SpxLatch.MutualExclusion` | `libs/nscore/spx_latch.c:101-171` | an exclusive holder excludes every other holder and every pending thread; no two threads are pending |
| `SpxLatch.PendingDrains` | `libs/nscore/spx_latch.c:120-165` | while a thread is pending the shared count never rises, and pending ends only with the latch taken |
| `SpxLatch.SharedEnabledIff` | `libs/nscore/spx_latch.c:58-118` | a thread gets past the test of either lock loop if and only if nobody is pending or exclusive, however many share |
| `SpxLatch.DrainEnabledIff` | `libs/nscore/spx_latch.c:120-165` | a pending thread may take the latch if and only if the last sharer has gone |
| `SpxLatch.SharerEnabledIff` | `libs/nscore/spx_latch.c:95-236` | a sharer can always leave, and one that upgrades gets past its test if and only if nobody is pending |
| `SpxLatch.SharesInTwo` | `libs/nscore/spx_latch.c:58-92` | with nobody in the way, a thread comes to share in two steps of its own |
| `SpxLatch.ClearsIff` | `libs/nscore/spx_latch.c:58-245` | from a state that satisfies the invariant some run brings every thread out, each call on the way completed, if and only if at most one thread is upgrading or pending |
| `SpxLatch.AllLeave` | `libs/nscore/spx_latch.c:58-245` | the run, when at most one is: the latch ends free |
| `SpxLatch.DeadlockStays` | `libs/nscore/spx_latch.c:174-236` | otherwise no step ends it: an upgrader only turns into a pending thread, and the pending one never gets past an upgrader |
| `SpxLatch.DeadlockForever` | `libs/nscore/spx_latch.c:174-236` | nor does any run |
| `SpxLatch.UpgradersDeadlock` | `libs/nscore/spx_latch.c:174-199` | two threads that share and both call upgrade reach such a state in those two steps |
| `SpxLatch.AssertionsHold` | `libs/nscore/spx_latch.c:174-236` | the assertions of the drain loops and of the upgrade hold |
| `SpxLatch.StartsFree` | `libs/nscore/spx_latch.c:52-55` | an unlocked latch satisfies the invariant |
| `ThreadPool.WorkQueue.Push` | `libs/nscore/threadpool.c:272-300` | a task goes to the end of the ring |
| `ThreadPool.WorkQueue.Pop` | `libs/nscore/threadpool.c:134-138` | the oldest task comes out |
| `ThreadPool.StepKeeps` | `libs/nscore/threadpool.c:94-384` | no interleaving of workers, producers, spin and stop leaves the invariant |
| `ThreadPool.RunKeeps` | `libs/nscore/threadpool.c:94-384` | the invariant holds in every state of every run |
| `ThreadPool.RunsAreSound` | `libs/nscore/threadpool.c:94-384` | each task runs at most once and only after it was queued, no wakeup is lost, and after a stop every task queued before it has run |
| `ThreadPool.TakenInOrder` | `libs/nscore/threadpool.c:94-170` | the tasks taken so far are the first of those queued so far, and what follows them is what the ring holds |
| `ThreadPool.AddsKeeps` | `libs/nscore/threadpool.c:272-300` | queueing a task, as the ring's push does it, keeps the invariant |
| `ThreadPool.TakeOrder` | `libs/nscore/threadpool.c:134-138` | taking the oldest task of the ring extends the tasks taken along the tasks queued |
| `ThreadPool.StopIsComplete` | `libs/nscore/threadpool.c:355-384` | when tp_stop returns every task queued before the stop flag was set has finished |
| `ThreadPool.WorkerEnabledIff` | `libs/nscore/threadpool.c:94-170` | a worker at the top of its loop always has a step: it takes a task if and only if one is queued, exits if and only if none is and the pool is stopped, and waits otherwise |
| `ThreadPool.BusyEnabledIff` | `libs/nscore/threadpool.c:148-161` | a worker that holds a task can run it, and one that has run it can report |
| `ThreadPool.ProducerEnabledIff` | `libs/nscore/threadpool.c:272-300` | a task is queued if and only if there is room, and its producer waits otherwise |
| `ThreadPool.ReportWakesNobody` | `libs/nscore/threadpool.c:151-161` | the signal of a reporting worker finds nobody waiting: who waits for it has set the stop flag first |
| `ThreadPool.StopCanFinish` | `libs/nscore/threadpool.c:355-384` | from every state with the stop flag set some run lets tp_stop return |
| `ThreadPool.TakesKeeps` | `libs/nscore/threadpool.c:134-146` | taking a task keeps exactly one owner for it |
| `ThreadPool.WaitsKeeps` | `libs/nscore/threadpool.c:104-115` | a worker waits only when there is nothing to do |
| `ThreadPool.ReportsKeeps` | `libs/nscore/threadpool.c:151-161` | a finished task's worker reports and wakes whoever waits for the pool to empty |
| `GrLock.GrantKeepsPairwise` | `libs/nscore/gr_lock.c:94-129` | a grant that fits every grant out keeps any two compatible |
| `GrLock.PairwiseShrinks` | `libs/nscore/gr_lock.c:154-183` | giving one back keeps them so |
| `GrLock.GrantKeepsUnfit` | `libs/nscore/gr_lock.c:94-129` | a grant makes nobody grantable that was not |
| `GrLock.ExclusiveAlone` | `libs/nscore/gr_lock.c:29-36` | an exclusive grant stands alone |
| `GrLock.CompatibleMeans` | `libs/nscore/gr_lock.c:29-36` | two modes are compatible if and only if nothing either may do to the whole conflicts with anything the other may do anywhere in it |
| `GrLock.ReadersAndWriters` | `libs/nscore/gr_lock.c:29-36` | of two compatible grants, one that may read all and one that may write any are never among them, nor one that may write all |
| `GrLock.Lock.NeverTogether` | `libs/nscore/gr_lock.c:94-183` | so in every state of the lock |
| `GrLock.Lock.IsCompatible` | `libs/nscore/gr_lock.c:69-79` | tells exactly whether a mode can do no harm beside every grant out |
| `GrLock.Lock.WakeWaiters` | `libs/nscore/gr_lock.c:82-91` | signals exactly the waiters that could be granted now |
| `GrLock.Lock.Grant` | `libs/nscore/gr_lock.c:126-127` | one grant more, counted under its mode |
| `GrLock.Lock.LockOrWait` | `libs/nscore/gr_lock.c:94-129` | grants exactly when the mode can do no harm beside any grant out, and otherwise queues a waiter that could not be granted |
| `GrLock.Lock.WakeUp` | `libs/nscore/gr_lock.c:110-124` | a woken waiter leaves the list and is granted exactly when its mode can do no harm now |
| `GrLock.Lock.TryLock` | `libs/nscore/gr_lock.c:132-151` | grants exactly when the mode can do no harm beside any grant out, and otherwise changes nothing |
| `GrLock.Lock.Ungrant` | `libs/nscore/gr_lock.c:161-163` | one grant less |
| `GrLock.Lock.AnyHolders` | `libs/nscore/gr_lock.c:165-173` | tells exactly whether a grant is out |
| `GrLock.Lock.Unlock` | `libs/nscore/gr_lock.c:154-183` | gives a grant back, leaves no grantable waiter unsignalled, and tells exactly whether nobody is left |
| `HashTable.NodesIn` | `libs/nscore/hash_table.c:82-106` | a node is in the table exactly if it is in some chain |
| `HashTable.NodesUpdate` | `libs/nscore/hash_table.c:66-79` | replacing one chain changes the nodes by exactly the difference |
| `HashTable.Linked` | `libs/nscore/hash_table.c:66-79` | linking a node at the head of its chain adds exactly it |
| `HashTable.Unlinked` | `libs/nscore/hash_table.c:109-122` | unlinking a node removes exactly it |
| `HashTable.InBounds` | `libs/nscore/adptv_hash_table.c:85-100` | while the old table holds a node the migration position is in bounds |
| `HashTable.InsertUnique` | `libs/nscore/adptv_hash_table.c:178-203` | adding a node whose key is absent keeps one node a key |
| `HashTable.DeleteUnique` | `libs/nscore/adptv_hash_table.c:206-258` | so does removing one |
| `HashTable.TwoKeysApart` | `libs/nscore/adptv_hash_table.c:124-258` | two keys under one hash code: each stays the only one of its node, and removing one leaves the other |
| `HashTable.TwoKeys` | `libs/nscore/adptv_hash_table.c:124-258` | after both are inserted each lookup answers its own node; after one is deleted it is not found, and the other is |
| `HashTable.LookupIsExact` | `libs/nscore/adptv_hash_table.c:124-153` | with one node a key, a node found is the only one under its key |
| `HashTable.HTable.Insert` | `libs/nscore/hash_table.c:66-79` | adds exactly the node, at the head of its chain |
| `HashTable.HTable.Lookup` | `libs/nscore/hash_table.c:82-106` | finds the first node of its chain with the hash code and the key, if and only if the table holds one |
| `HashTable.HTable.Delete` | `libs/nscore/hash_table.c:109-122` | removes exactly the node found |
| `HashTable.Adaptive.constructor` | `libs/nscore/adptv_hash_table.c:48-70` | an empty table of the least size, its load within the limit |
| `HashTable.Adaptive.MigrateOne` | `libs/nscore/adptv_hash_table.c:88-99` | passes the chain at the migration position if it is empty and moves one node otherwise; no node is lost or duplicated |
| `HashTable.Adaptive.FinishRehashing` | `libs/nscore/adptv_hash_table.c:85-100` | empties the old table and ends |
| `HashTable.Adaptive.MoveOne` | `libs/nscore/adptv_hash_table.c:93-98` | hands the node over: it is in one of the tables before and after |
| `HashTable.Adaptive.HelpRehashing` | `libs/nscore/adptv_hash_table.c:103-121` | makes as many turns as the settings allow, or as empty the old table; the contents stay |
| `HashTable.Adaptive.TriggerRehashing` | `libs/nscore/adptv_hash_table.c:156-175` | starts a rehash of every node, or reports that it cannot; the contents stay |
| `HashTable.Adaptive.Lookup` | `libs/nscore/adptv_hash_table.c:124-153` | finds a node with the hash code and the key if and only if either table holds one; with one node a key it is a map lookup |
| `HashTable.Adaptive.Find` | `libs/nscore/adptv_hash_table.c:124-153` | looks in the new table, then in the old |
| `HashTable.Adaptive.Insert` | `libs/nscore/adptv_hash_table.c:178-203` | adds exactly the node and takes a full round of help; fails exactly when it must grow and cannot; keeps one node a key if the key was absent, and the load of the transaction table within its limit |
| `HashTable.Adaptive.Grow` | `libs/nscore/adptv_hash_table.c:184-195` | doubles exactly when one more node would fill the table and it may grow |
| `HashTable.Adaptive.Delete` | `libs/nscore/adptv_hash_table.c:206-258` | removes exactly one node with the hash code and the key, or none if there is none; fails exactly when it must shrink and cannot; keeps one node a key and the load |
| `HashTable.Adaptive.Shrink` | `libs/nscore/adptv_hash_table.c:217-227` | halves exactly when the table has become too empty and may shrink |
| `HashTable.Adaptive.Remove` | `libs/nscore/adptv_hash_table.c:229-253` | removes one node with the hash code and the key from either table, or finds none in both |
| `Crc32c.PolyIsCastagnoli` | `libs/nscore/checksums.c:36` | the constant is the Castagnoli polynomial with its bits reflected |
| `Crc32c.StepCoeffs` | `libs/nscore/checksums.c:36` | one step of the register is one step of schoolbook polynomial division |
| `Crc32c.StepDivides` | `libs/nscore/checksums.c:36` | a step cancels one coefficient of the dividend |
| `Crc32c.FeedDivides` | `libs/nscore/checksums.c:61-65` | feeding a message bit by bit leaves the remainder of its division, the initial register added to its head |
| `Crc32c.StepPlus` | `libs/nscore/checksums.c:36` | a step is linear over GF(2) |
| `Crc32c.StepsPlus` | `libs/nscore/checksums.c:35-36` | so is any number of steps |
| `Crc32c.ByteStepFeeds` | `libs/nscore/checksums.c:63` | one table lookup is eight steps of the bitwise register |
| `Crc32c.FoldFeeds` | `libs/nscore/checksums.c:61-65` | the byte loop is the bitwise register over the whole message |
| `Crc32c.SplitsAnywhere` | `libs/nscore/checksums.c:48-66` | checksumming any split of a message piece by piece is checksumming it whole |
| `Crc32c.ChecksumIsRemainder` | `libs/nscore/checksums.c:42-66` | the checksum of a message is the complemented remainder of RFC 3720 section 12.1, reflected |
| `Crc32c.Checksum.Init` | `libs/nscore/checksums.c:29-40` | fills the table with the eight-step values of every byte |
| `Crc32c.Checksum.Execute` | `libs/nscore/checksums.c:48-66` | updates the state as the specification says, filling the table on first use |
| `StridedCopy.ApplyTwice` | `docs/sketches/access_patterns.c:22-183` | what two pieces do in a row is what their concatenation does |
| `StridedCopy.PiecesDoNotMatter` | `docs/sketches/access_patterns.c:22-183` | on values, one buffer after another comes to the same as all at once; used for CopyAll |
| `StridedCopy.PatternAt` | `docs/sketches/access_patterns.c:81-181` | byte t of a pattern goes to place (t div stride) * read + t mod stride, or is skipped if t mod stride is not below read |
| `StridedCopy.PatternLength` | `docs/sketches/access_patterns.c:81-181` | a pattern spans nreads runs and the nreads - 1 gaps between them, or nothing |
| `StridedCopy.PlanLength` | `docs/sketches/access_patterns.c:22-183` | a plan takes in the hops and spans of its entries |
| `StridedCopy.ScatterFormula` | `docs/sketches/access_patterns.c:22-183` | byte t of the pattern of entry h is read at the sum of what comes before it, and goes to the offset of the entry plus (t div stride) * read + t mod stride, or nowhere |
| `StridedCopy.PutComesFrom` | `docs/sketches/access_patterns.c:22-183` | nothing else of the source is copied |
| `StridedCopy.FinishedScatter` | `docs/sketches/access_patterns.c:22-183` | a finished copy: each place holds the byte of the source that the formulas send there, the last of several, and its old byte if there is none |
| `StridedCopy.CopiedRuns` | `docs/sketches/access_patterns.c:22-183` | a finished copy, run by run: place j of what an entry writes holds the byte (j div read) strides and j mod read further on in the source, if no later byte goes to the same place |
| `StridedCopy.ApplyAt` | `docs/sketches/access_patterns.c:155-179` | a destination byte is the last one put there, or untouched |
| `StridedCopy.ScriptPlus` | `docs/sketches/access_patterns.c:32-39` | entries act one after the other |
| `StridedCopy.Scatter.constructor` | `docs/sketches/access_patterns.c:22-30` | a zero state has the whole plan ahead |
| `StridedCopy.Scatter.Copy` | `docs/sketches/access_patterns.c:22-183` | writes exactly what the plan says for the bytes of this buffer (`CopiedRuns` says which these are), leaves exactly the rest, and returns true exactly when the plan is finished |
| `StridedCopy.Scatter.CopyAll` | `docs/sketches/access_patterns.c:22-183` | however the source is cut into buffers, one call for each, the destination and what is left are those of one copy of the whole |
| `StridedCopy.Scatter.Hop` | `docs/sketches/access_patterns.c:41-79` | passes over the hop, or uses up the buffer |
| `StridedCopy.Scatter.Runs` | `docs/sketches/access_patterns.c:81-181` | copies the pattern to its end, or uses up the buffer |
| `StridedCopy.Scatter.Gap` | `docs/sketches/access_patterns.c:108-135` | skips between two runs, or uses up the buffer |
| `StridedCopy.Scatter.Run` | `docs/sketches/access_patterns.c:144-179` | copies a run densely to its offset, or uses up the buffer |
| `StridedGather.GatherJoin` | `docs/sketches/access_patterns.c:219-319` | filling one destination and then the next is filling the two in a row |
| `StridedGather.GatherFormula` | `docs/sketches/access_patterns.c:219-319` | byte t delivered by a pattern is the byte of the source (t div read) strides and t mod read further on |
| `StridedGather.OffsetsLength` | `docs/sketches/access_patterns.c:219-319` | a plan delivers nreads times read bytes for each of its entries |
| `StridedGather.AtJump` | `docs/sketches/access_patterns.c:219-319` | what an entry delivers comes after what the entries before it do |
| `StridedGather.FinishedGather` | `docs/sketches/access_patterns.c:219-319` | a finished copy: byte j of an entry stands behind the bytes of the entries before it, and is the byte of the source (j div read) strides and j mod read past its offset |
| `StridedGather.GatherMore` | `docs/sketches/access_patterns.c:279-316` | k more bytes extend the filled part of the buffer and nothing else |
| `StridedGather.Gather.constructor` | `docs/sketches/access_patterns.c:219-228` | a zero state has the whole plan ahead |
| `StridedGather.Gather.Copy` | `docs/sketches/access_patterns.c:219-319` | fills the buffer with the next bytes of the plan, leaves exactly the rest, and returns true exactly when the plan is finished |
| `StridedGather.Gather.CopyAll` | `docs/sketches/access_patterns.c:219-319` | however the destination is cut into buffers, one call for each, they hold in a row what one copy into a single one would |
| `StridedGather.Gather.Runs` | `docs/sketches/access_patterns.c:240-317` | delivers the pattern to its end, or fills the buffer |
| `StridedGather.Gather.Run` | `docs/sketches/access_patterns.c:279-316` | delivers a run, or fills the buffer |
| `Scanner.FeedTwice` | `libs/nscompiler/scanner.c:954-978` | on values, feeding two pieces is feeding the whole; used for ScanAll |
| `Scanner.CrashedStays` | `libs/nscompiler/scanner.c:444-461` | after the parser's assertion nothing is read or written |
| `Scanner.EndFirst` | `libs/nscompiler/scanner.c:400-418` | ending the token in progress before looking at the next character changes nothing |
| `Scanner.SpaceIsNothing` | `libs/nscompiler/scanner.c:228-247` | white space between tokens is nothing |
| `Scanner.PairIsTwo` | `libs/nscompiler/scanner.c:563-721` | a first character that stays alone, followed by a token of one character, is two tokens in one round |
| `Scanner.HungStays` | `libs/nscompiler/scanner.c:483-498` | after an error a character other than a semicolon is never consumed |
| `Scanner.ParseInt` | `libs/nscore/numbers.c:29-81` | accepts exactly the numbers up to 2147483647 and answers their value |
| `Scanner.Scanner.constructor` | `libs/nscompiler/scanner.c:931-951` | nothing read, nothing written |
| `Scanner.Scanner.CopyAdvance` | `libs/nscompiler/scanner.c:183-218` | one character into a buffer of 512, or an error |
| `Scanner.Scanner.ProcessMaybeIdent` | `libs/nscompiler/scanner.c:348-397` | a keyword, an operation that opens a statement, or a name of the open statement |
| `Scanner.Scanner.ProcessStringOrIdent` | `libs/nscompiler/scanner.c:291-345` | kept in the open statement, or an error |
| `Scanner.Scanner.ProcessInt` | `libs/nscompiler/scanner.c:501-518` | an integer token or an error |
| `Scanner.Scanner.ProcessDec` | `libs/nscompiler/scanner.c:444-461` | a float token, an error, or the parser's assertion |
| `Scanner.Scanner.ExecuteIdent` | `libs/nscompiler/scanner.c:400-418` | keeps the end that scanning leads to |
| `Scanner.Scanner.ExecuteString` | `libs/nscompiler/scanner.c:422-441` | likewise |
| `Scanner.Scanner.ExecuteNumber` | `libs/nscompiler/scanner.c:521-547` | likewise |
| `Scanner.Scanner.ExecuteDec` | `libs/nscompiler/scanner.c:464-480` | likewise |
| `Scanner.Scanner.ExecuteErr` | `libs/nscompiler/scanner.c:483-498` | consumes a semicolon, or hangs |
| `Scanner.Scanner.ConsumeWhitespace` | `libs/nscompiler/scanner.c:228-247` | skips exactly the white space |
| `Scanner.Scanner.ResolvePrev` | `libs/nscompiler/scanner.c:563-708` | joins two characters into one operator, or lets the first stand alone, a lone = being an error |
| `Scanner.Scanner.BeginToken` | `libs/nscompiler/scanner.c:719-921` | a token of one character, or the state after the first of a longer one |
| `Scanner.Scanner.BeginLonger` | `libs/nscompiler/scanner.c:869-920` | a string, name or number begun, or an error |
| `Scanner.Scanner.ExecuteStart` | `libs/nscompiler/scanner.c:550-923` | keeps the end scanning leads to, and overruns the output exactly when two tokens meet one slot |
| `Scanner.Scanner.AtMostOneToken` | `libs/nscompiler/scanner.c:251-288` | likewise for a whole round |
| `Scanner.Scanner.Execute` | `libs/nscompiler/scanner.c:954-978` | what has been written and what is left to read lead to the same tokens as before the call; with more slots than tokens ahead it reads all the input and never overruns |
| `Scanner.Scanner.ScanAll` | `libs/nscompiler/scanner.c:954-978` | the input in pieces, one call of Execute for each: with more slots than tokens, the tokens written and the state reached are those of the whole, wherever the cuts fall |
| `Scanner.Scanner.ScanPiece` | `libs/nscompiler/scanner.c:954-978` | one piece leads where it leads with any rest behind it |
| `ScannerText.ReadBack` | `libs/nscompiler/scanner.c:348-921` | any tokens, each writable where it stands and told from what follows it, are read back from their printed text exactly; no blank is needed where two do not run together |
| `ScannerText.StatementsReadBack` | `libs/nscompiler/scanner.c:348-921` | so statements ended by their semicolon come back whole, and the scanner is ready for the next one |
| `ScannerText.ScanPrinted` | `libs/nscompiler/scanner.c:954-978` | the scanner itself, given printed statements in any pieces, writes exactly the tokens they were printed from |
| `ScannerText.OneSpaceIsLegible` | `libs/nscompiler/scanner.c:228-247` | one blank after each token is always enough |
| `ScannerText.TokenScans` | `libs/nscompiler/scanner.c:348-921` | a token as it was written is the token read, whatever follows |
| `ScannerText.GapScans` | `libs/nscompiler/scanner.c:228-247` | any white space between tokens is nothing |
| `ScannerText.WordMeans` | `libs/nscompiler/scanner.c:65-104` | create, delete and insert open a statement; the types and literals are keywords; any other word is a name inside a statement and an error outside |
| `ScannerText.WordScans` | `libs/nscompiler/scanner.c:400-418` | a word ends before the first character that is neither letter, digit nor underscore |
| `ScannerText.IntMeans` | `libs/nscompiler/scanner.c:501-518` | the decimal digits of a number up to 2147483647 are read as that number |
| `ScannerText.FloatScans` | `libs/nscompiler/scanner.c:464-480` | digits, a point and digits are one number |
| `ScannerText.TextScans` | `libs/nscompiler/scanner.c:422-441` | a string is what stands between its quotes |
| `ScannerText.DoubleScans` | `libs/nscompiler/scanner.c:563-708` | two characters that join are one operator, with no space before what follows |
| `ScannerText.StemScans` | `libs/nscompiler/scanner.c:563-708` | a character that could begin a longer operator stands alone if the next does not join it |
| `ScannerText.NameOutside` | `libs/nscompiler/scanner.c:291-305` | a name outside a statement is exactly one error |
| `ScannerText.TextOutside` | `libs/nscompiler/scanner.c:291-305` | so is a string |
| `ScannerText.BareEquals` | `libs/nscompiler/scanner.c:563-708` | so is a single =, in a statement or outside |
| `ScannerText.TooGreat` | `libs/nscompiler/scanner.c:501-518` | so is an integer above 2147483647 |
| `ScannerText.NameTooLong` | `libs/nscompiler/scanner.c:183-196` | so is a name of more than 512 characters |
| `ScannerText.NumberTooLong` | `libs/nscompiler/scanner.c:183-196` | so are more than 512 digits |
| `ScannerText.TextTooLong` | `libs/nscompiler/scanner.c:183-196` | so is a string of more than 512 characters |
| `ScannerText.UnknownChar` | `libs/nscompiler/scanner.c:719-921` | so is a character that begins nothing |
| `ScannerText.AfterError` | `libs/nscompiler/scanner.c:483-498` | after the error a semicolon starts afresh, and anything else is held up for ever |
| `ScannerText.PointAtEnd` | `libs/nscompiler/scanner.c:444-461` | digits that end in a point stop the scanner at the assertion of the parser |
| `CrashProgress.OpensIff` | `libs/nspager/pager.c:2265-2286` | a restart can come to its end, in either reading and with crashes and evictions or without, if and only if the log it found holds an update |
| `CrashProgress.CanOpen` | `libs/nspager/pager.c:2265-2286` | from every state a pager is opened in, if its log holds an update, some restart runs to its end without a crash |
| `CrashProgress.EndsExist` | `libs/nspager/pager.c:1792-1816` | every table has its end records |
| `CrashProgress.Analyzes` | `libs/nspager/pager.c:1820-2029` | analysis can always be made, and redo begins in bounds |
| `CrashProgress.RedoRuns` | `libs/nspager/pager.c:2033-2142` | redo always reaches its end |
| `CrashProgress.UndoneAgain` | `libs/nspager/pager.c:2151-2258` | while a transaction is left there is a round of undo, and the greatest pointer falls |
| `CrashProgress.UndoRuns` | `libs/nspager/pager.c:2146-2261` | undo always reaches its end |

## Left out

- CrashSafety.RecoveryToleratesCrashes: is stated for analysis as its comments describe it, because the code does not undo; `CodedRestartsEnd` says what the code comes to and when the two agree.
- CrashSafety.RestartEndsRight: likewise.
- CrashSafety.StepKeeps: likewise; `CodedAnalyzeKeepsIff` is the exact condition for the code.
- CrashSafety.AnalyzeKeeps: likewise.
- Restart.AttScanned: is stated for analysis as its comments describe it; `AttCoded` is what the code does.
- Restart.ScannedTracks: likewise; `AsCodedUndoesNothing` is what the code comes to.
- Restart.AnalysisLeavesUndoTable: likewise.
- Restart.EndsAreLegal: likewise; `CodedEndsLegalIff` is the exact condition for the code.
- CrashAsCoded.CodedRestartsEnd: follows the restarts to the first that completes; work after it starts from a log that need not be one the pager may write.
- BufferPool.Pool.Get: does not model a page some handle holds for writing; the source waits there on a latch of its own.
- PageFile.File.New: does not model the error paths that give the root page and the new page back after a failed save.
- HashTable.HTable.Insert: chains are sequences, so relinking through pointers and aliasing of nodes are not modelled.
- Balance.DataList.CutLeft: the source moves overlapping bytes with a plain copy; it is taken as a move.
- Balance.InnerNode.ChooseLidx: does not model 64-bit wrap-around of the sum of the keys.
- StridedCopy.Scatter.Copy: does not model 32-bit wrap-around of offsets; the header with the plan types is not part of this model.
- Scanner.Scanner.ProcessDec: which texts a 32-bit float can hold is a parameter of the scanner, because rounding is not the point there.
- Scanner.Scanner.ProcessStringOrIdent: does not model a failed allocation of a statement or of its strings.
- SpxLatch.ClearsIff: says that some run lets every thread out, not that every run does; spin locks make no promise of fairness.
- ThreadPool.StopCanFinish: likewise says that some run lets the stop return, nothing on fairness.
- CrashProgress.CanOpen: likewise; evictions and crashes may go on for ever between the steps of a restart.
- Checkpoints and recovery from one: a checkpoint writes the root page before it flushes the log, so a recovery from it needs other hypotheses.
- File and log byte formats, record checksums and I/O errors: disk and log are a map and a sequence.
- Memory lifetime: growing arrays of descriptors, freed tables.
- Deadlock counters, yields, thread creation and joining.
- The routines that only fetch a neighbour or advance along a chain, and the unlinked variants of page creation: they add no state of their own.
- The parser, literals, containers, allocators, command line, logging and printing: routine, and nothing above depends on them.
