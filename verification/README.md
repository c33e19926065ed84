# Verified models of SQLite's data structures and protocols, and of cJSON

This project models the most intricate self-contained algorithms among the
bundled sources and proves what they are for. `dafny verify dfyconfig.toml`
checks everything.

* **ANALYZE with STAT4** (`IndexRows`, `SampleOrder`, `SampleHistory`,
  `SampleCoverage`, `Stat4`). An online sampler over a sorted index scan. A ghost
  history of all rows seen so far is the reference; counts are sizes of sets of rows.
* **Bitvec** (`ProbeTable`, `Bitvec`). One set in three representations, with
  every conversion between them.
* **The shared-cache mutex protocol** (`BtMutex`, `BtMutexTheorems`, `BtMutexOrder`). A state
  machine of any number of connections, one thread each, with a step for every
  access to shared state.
* **Online backup** (`BackupCopy`, `Backup`). A copier at byte level, interleaved
  with writes to the source.
* **Dates** (`Calendar`, `DateTimes`, `Timediff`). Julian day formulas against a
  calendar that counts, and `timediff()` against the modifier it is meant for.
* **The hash table** (`HashRuns`, `HashTable`). A doubly linked list on the heap
  whose runs are the buckets, against a map.
* **cJSON** (`Json`, `JsonBuffers`, `JsonEscapes`, `JsonGrammar`, `JsonAcceptance`,
  `JsonRoundTrip`, `JsonTheorems`, `JsonParser`, `JsonPrinter`, `JsonList`). Parser and
  printer methods, each against functions on texts; a grammar of RFC 8259, which the
  parser is proved to read exactly and the printer to write; and the child-list
  operations.
* **ALTER TABLE RENAME** (`SqlTokens`, `SqlEdit`). In-place edits against
  simultaneous substitution.
* **Schema algorithms** (`StorageColumns`, `DestroyOrder`, `WithoutRowid`).

`Arithmetic`, `Options` and `Sequences` hold what several of these share.

Allocation failures, lock outcomes, I/O errors and the sizes an allocator grants
are parameters or arbitrary choices. Constants are those of the source; the
layout constants of Bitvec are parameters with the bounds they need. Seconds are
whole milliseconds, and the reals in the date formulas are exact fractions.

## Where code and documentation differ

* btmutex.c says that sqlite3BtreeEnterAll() locks in ascending address order. The
  code goes through aDb[] in its own order, so this holds exactly when aDb[] names
  the mutexes not yet held in ascending order (`BtMutexOrder.EnterAllOrder`), and
  `BtMutexOrder.Descending` is a run where it does not. What rules out deadlock is
  btreeLockCarefully(), and that is what is proved.
* date.c promises datetime(A) == datetime(B, timediff(A,B)). An A written with hour
  24 on 28 February of a common year, with a B in March that is not after it,
  breaks this (`Timediff.EndOfFebruary`). So does a B whose date timediff() normalises
  but datetime() with a modifier does not: a day past the end of its month
  (`Timediff.ThirtyFirstOfFebruary`) or hour 24 after the 28th
  (`Timediff.LateOnThe30th`). `Timediff.RoundTrip` gives the exact condition.
* In cJSON a `\u` escape with a non-hexadecimal digit reads as code point zero,
  which ends the C string there (`JsonEscapes.NotHexadecimal`), and raw control
  characters are accepted (`JsonEscapes.RawNewline`). `JsonEscapes.LiteralExactly` and
  `JsonEscapes.AcceptedExactly` say exactly when literals and strings are read as
  section 7 of RFC 8259 has it. Outside strings cJSON also takes leading zeros, and any
  control character as white space; `JsonAcceptance.ParsedExactly` says what it takes.
* cJSON refuses to append an item to itself, but not to insert it into or put it
  in place of one of its own children (`JsonList.InsertItemInArray`,
  `JsonList.ReplaceItem`).

## Model

| member | source | states |
|---|---|---|
| `Stat4.Analyze` | test_targets/sqlite3_full/src/analyze.c:702-779 | Whole-scan theorem for every strictly increasing sequence of index rows, with no bound on their number. The period p is the one number with (mxSample/3+1)*(p-1) <= nEst < (mxSample/3+1)*p. The scan runs into the assertion iMin>=0 of sampleInsert if and only if it has mxSample*p rows or more. Otherwise every stored sample is a row of the index with its own rowid, and anEq, anLt and anDLt are, for each prefix, the number of rows with that prefix, the number of rows with a smaller one, and the number of distinct smaller ones (as sizes of sets of rows); the samples are in index order and at most mxSample; row k is stored as a periodic sample if and only if p divides k+1; every other sample had the greatest tie-break key of all rows of one of its groups, lexicographically, each row's key taken when it was scanned; and a group of rows that no sample belongs to ranks no higher than any stored non-periodic sample |
| `Stat4.AnalyzeCounted` | test_targets/sqlite3_full/src/analyze.c:1146-1157 | ANALYZE itself counts the index before the scan, so the estimate is the number of rows: then the assertion never fails, and all of the above holds of every index |
| `Stat4.StatAccum.constructor` | test_targets/sqlite3_full/src/analyze.c:401-486 | The empty accumulator satisfies the history invariant for a scan of no rows |
| `Stat4.StatAccum.Push` | test_targets/sqlite3_full/src/analyze.c:702-779 | One statPush call with the true first changed column keeps the whole history invariant and appends exactly that row to the history; it fails exactly with the row that reaches the limit |
| `Stat4.StatAccum.Finish` | test_targets/sqlite3_full/src/analyze.c:882-886 | samplePushPrevious(p,0) leaves every stored sample exact, sorted, within the limit, with no periodic row lost and every group covered |
| `Stat4.StatAccum.SamplePushPrevious` | test_targets/sqlite3_full/src/analyze.c:650-680 | After it no sample has an unfilled anEq entry at or above the changed column, and every filled entry is exact |
| `Stat4.StatAccum.PushBest` | test_targets/sqlite3_full/src/analyze.c:655-661 | Offering the best row of an ended group keeps the samples right one level further down |
| `Stat4.StatAccum.FillIn` | test_targets/sqlite3_full/src/analyze.c:670-679 | Zero entries are replaced by the counts of the group that ends, and only those |
| `Stat4.StatAccum.Advance` | test_targets/sqlite3_full/src/analyze.c:732-742 | The counters of the current row after a row that differs from the previous one first in column iChng |
| `Stat4.StatAccum.PushPeriodic` | test_targets/sqlite3_full/src/analyze.c:757-764 | Exactly the rows that end a period are stored as periodic samples |
| `Stat4.StatAccum.UpdateBest` | test_targets/sqlite3_full/src/analyze.c:766-772 | aBest[i] is the row with the greatest tie-break key among all rows so far of the current group |
| `Stat4.StatAccum.InsertPeriodic` | test_targets/sqlite3_full/src/analyze.c:558-640 | A periodic sample joins the array; no earlier periodic sample is lost; the assertion at the end fails exactly at the limit |
| `Stat4.InsertChampion` | test_targets/sqlite3_full/src/analyze.c:558-640 | Inserting a candidate either upgrades the preferred open sample of its group, leaves a periodic one to stand for it, or replaces the minimum; in each case the array invariants hold one level further down |
| `Stat4.Offer` | test_targets/sqlite3_full/src/analyze.c:655-661 | The test in front of sampleInsert may skip a candidate only if that costs nothing: a full array of samples that are all at least as good |
| `Stat4.FindUpgrade` | test_targets/sqlite3_full/src/analyze.c:580-590 | The sample to upgrade is an open non-periodic sample of the same group that no other such sample beats, or there is none |
| `Stat4.FindNewMin` | test_targets/sqlite3_full/src/analyze.c:628-639 | There is a sample to evict unless the array is full of periodic ones; the one chosen is non-periodic and beats no other non-periodic sample |
| `Stat4.MakeRoom` | test_targets/sqlite3_full/src/analyze.c:598-612 | A full array loses its minimum and nothing else; no periodic sample is evicted |
| `Stat4.ChooseBest` | test_targets/sqlite3_full/src/analyze.c:766-772 | Keeping or replacing aBest[i] gives the best row of the group that now includes the new row |
| `Stat4.FillCounts` | test_targets/sqlite3_full/src/analyze.c:670-679 | Which entries are filled in, and with what |
| `SampleOrder.SampleIsBetterPost` | test_targets/sqlite3_full/src/analyze.c:511-525 | The comparison is the lexicographic order on the later anEq entries and the hash |
| `SampleOrder.SampleIsBetter` | test_targets/sqlite3_full/src/analyze.c:535-552 | The comparison is the lexicographic order on size of the group, shortness of the prefix and the tie-break key |
| `SampleOrder.BetterTransitive` | test_targets/sqlite3_full/src/analyze.c:535-552 | The order is transitive |
| `SampleOrder.Connected` | test_targets/sqlite3_full/src/analyze.c:535-552 | Two samples neither of which is better have the same key |
| `SampleHistory.SomeNonPeriodic` | test_targets/sqlite3_full/src/analyze.c:628-639 | Below mxSample*nPSample rows a full array holds a non-periodic sample |
| `SampleHistory.NoneLeft` | test_targets/sqlite3_full/src/analyze.c:628-639 | From mxSample*nPSample rows on, an array that has kept every periodic row holds nothing else |
| `SampleHistory.PeriodBounds` | test_targets/sqlite3_full/src/analyze.c:460 | The period p satisfies (mxSample/3+1)*(p-1) <= nEst < (mxSample/3+1)*p |
| `SampleHistory.OnePeriod` | test_targets/sqlite3_full/src/analyze.c:460 | No other number does |
| `SampleHistory.FewPeriodic` | test_targets/sqlite3_full/src/analyze.c:460 | Of the first n rows exactly n/p are periodic, of the estimated rows at most mxSample/3, and with a shorter period it would be more |
| `SampleHistory.ChampionWon` | test_targets/sqlite3_full/src/analyze.c:655-661 | The candidate offered for a group that has just ended had the greatest tie-break key of all its rows |
| `SampleHistory.WonForGood` | test_targets/sqlite3_full/src/analyze.c:650-680 | Once the group has ended no later row changes that |
| `SampleHistory.PrnAfter` | test_targets/sqlite3_full/src/analyze.c:755 | The tie-break number of the n-th row in one formula, A^n*seed + 12345*(1+A+...+A^(n-1)) modulo 2^32 with A=1103515245 |
| `Stat4.SeedMixes` | test_targets/sqlite3_full/src/analyze.c:462 | The seed is the exclusive or of the two products: taking one out again leaves the other, for any number of rows estimated |
| `SampleHistory.PeriodIsLongEnough` | test_targets/sqlite3_full/src/analyze.c:460 | A scan within the estimate stays below the limit |
| `SampleHistory.OwnEntry` | test_targets/sqlite3_full/src/analyze.c:529-534 | The assumption stated above sampleIsBetter: anEq[] of every stored non-periodic sample is exact from its own column on |
| `SampleHistory.NoBlankBelowChampion` | test_targets/sqlite3_full/src/analyze.c:591-595 | The sample chosen for an upgrade has exact counts between its old and its new column, so that assumption still holds after it |
| `SampleHistory.SkipIsSafe` | test_targets/sqlite3_full/src/analyze.c:655-661 | A candidate that is not offered leaves no open sample unfilled |
| `SampleCoverage.CoverAfterEviction` | test_targets/sqlite3_full/src/analyze.c:598-612 | Evicting the minimum leaves no unrepresented group that ranks higher than a kept sample |
| `SampleCoverage.CoverAfterPromotion` | test_targets/sqlite3_full/src/analyze.c:591-595 | Upgrading a sample makes it stand for the shorter prefix as well |
| `IndexRows.CountsOfNewRow` | test_targets/sqlite3_full/src/analyze.c:729-742 | How the three counts of the newest row follow from those of the row before it |
| `IndexRows.CountsOfOldRow` | test_targets/sqlite3_full/src/analyze.c:729-742 | A new row changes the count of equal rows of its own groups and no other count |
| `Bitvecs.RunProgram` | test_targets/sqlite3_full/src/bitvec.c:394-494 | For every size and every program of Set and Clear with indices in range, Test(i) afterwards is true exactly when i is in the set a linear array would hold, unless an allocation failed; for every layout with NINT>=2, NPTR>=2 and NBIT>=8 |
| `Bitvecs.RunThroughFailures` | test_targets/sqlite3_full/src/bitvec.c:170-235 | A program that carries on after failed allocations never makes up a bit: Test(i) true implies that i is set in the linear array |
| `Bitvecs.LayoutsValid` | test_targets/sqlite3_full/src/bitvec.c:55-70 | Both layouts of 512-byte objects, for 32-bit and 64-bit pointers, satisfy these bounds |
| `Bitvecs.Bitvec.constructor` | test_targets/sqlite3_full/src/bitvec.c:116-124 | A new Bitvec of any size is well formed and empty |
| `Bitvecs.Bitvec.Test` | test_targets/sqlite3_full/src/bitvec.c:131-156 | True exactly for the members, for every 32-bit index including 0 and those out of range |
| `Bitvecs.Bitvec.TestLeaf` | test_targets/sqlite3_full/src/bitvec.c:143-152 | Bitmap and hash lookup; the probe loop ends because an empty slot exists |
| `Bitvecs.Bitvec.Set` | test_targets/sqlite3_full/src/bitvec.c:170-235 | OK adds exactly i; a failure leaves a subset of the old set and i; without memory pressure it never fails; it terminates through every conversion |
| `Bitvecs.Bitvec.SetInSub` | test_targets/sqlite3_full/src/bitvec.c:176-184 | Setting a bit of a sub-bitvec sets exactly the corresponding bit of the whole |
| `Bitvecs.Bitvec.Subdivide` | test_targets/sqlite3_full/src/bitvec.c:210-230 | Turning the hash into sub-bitvecs re-inserts every old value and i |
| `Bitvecs.Bitvec.Refill` | test_targets/sqlite3_full/src/bitvec.c:223-226 | The loop that re-inserts saved values adds exactly those values, or fewer if an allocation fails |
| `Bitvecs.Bitvec.Clear` | test_targets/sqlite3_full/src/bitvec.c:243-275 | Removes exactly i |
| `Bitvecs.DivisorFits` | test_targets/sqlite3_full/src/bitvec.c:220-222 | A sub-bitvec is strictly smaller than its parent, and the sub-bitvecs together cover it |
| `Bitvecs.DivisorDivides` | test_targets/sqlite3_full/src/bitvec.c:176-184 | Every index falls into one sub-bitvec, at an index within its size |
| `Bitvecs.BitmapUpdate` | test_targets/sqlite3_full/src/bitvec.c:185-188 | Setting or clearing one bit of the bytes changes exactly one member |
| `ProbeTable.Probe` | test_targets/sqlite3_full/src/bitvec.c:200-206 | Probing stops at the value or at an empty slot, and at the value exactly if it is stored |
| `ProbeTable.Lookup` | test_targets/sqlite3_full/src/bitvec.c:146-151 | The same for the loop that wraps around with a remainder |
| `ProbeTable.AbsentAtEmpty` | test_targets/sqlite3_full/src/bitvec.c:146-151 | An empty slot on the probe path means the value is not stored |
| `ProbeTable.InsertKeepsWalks` | test_targets/sqlite3_full/src/bitvec.c:202-234 | Filling the empty slot that ends the probe path leaves no gap on any path |
| `ProbeTable.Rebuild` | test_targets/sqlite3_full/src/bitvec.c:258-273 | Clearing and re-inserting all values but one leaves a table without gaps that holds exactly the others |
| `BtMutexTheorems.NoDeadlockInAnyRun` | test_targets/sqlite3_full/src/btmutex.c:71-137 | In every state of every interleaving of any number of connections, with tries that may fail on free mutexes too, no set of connections each waits for another one of the set |
| `BtMutexTheorems.HeldIsSmaller` | test_targets/sqlite3_full/src/btmutex.c:105-137 | A thread about to block on a BtShared mutex holds only mutexes of smaller address |
| `BtMutexTheorems.NoWaitCycle` | test_targets/sqlite3_full/src/btmutex.c:105-137 | The wait-for relation has no cycle |
| `BtMutexTheorems.NoDeadlock` | test_targets/sqlite3_full/src/btmutex.c:105-137 | No state that satisfies the invariant is a deadlock |
| `BtMutexTheorems.RunInv` | test_targets/sqlite3_full/src/btmutex.c:71-152 | The invariant (ownership, locked flags, sorted lists, want counts at every program point) holds in every reachable state |
| `BtMutexTheorems.UnblockedCanMove` | test_targets/sqlite3_full/src/btmutex.c:71-211 | A connection that is not blocked can always take a step |
| `BtMutexTheorems.IdleHoldsWhatItWants` | test_targets/sqlite3_full/src/btmutex.c:71-97 | When no call is in progress a sharable Btree is locked, and its mutex owned, exactly if wantToLock>0, and BtShared.db points to the connection |
| `BtMutexTheorems.SourceAssertions` | test_targets/sqlite3_full/src/btmutex.c:27-50 | The assertions of lockBtreeMutex and unlockBtreeMutex hold wherever they are reached |
| `BtMutexTheorems.CallEffect` | test_targets/sqlite3_full/src/btmutex.c:71-211 | In every run, a call that has returned has changed wantToLock as it says, whatever other connections did meanwhile: EnterAll and LeaveAll by one for each sharable entry of aDb[] and for no other; the connection owns exactly the mutexes it wants; and after EnterAll noSharedCache holds if and only if no entry is sharable |
| `BtMutexTheorems.LeaveAllUndoes` | test_targets/sqlite3_full/src/btmutex.c:181-211 | A LeaveAll after an EnterAll may always be called, and restores wantToLock and the ownership of every mutex |
| `BtMutexTheorems.StepGetsCloser` | test_targets/sqlite3_full/src/btmutex.c:71-211 | Every step brings its call closer to returning |
| `BtMutexTheorems.ChainEnds` | test_targets/sqlite3_full/src/btmutex.c:105-137 | From every connection a chain of waits leads to one that is not blocked |
| `BtMutexTheorems.Progress` | test_targets/sqlite3_full/src/btmutex.c:71-211 | In every state of every run, each connection waits in the end only for one that can take a step, which brings it closer to returning if it is inside a call |
| `BtMutexOrder.EnterAllOrder` | test_targets/sqlite3_full/src/btmutex.c:181-197 | In every run, EnterAll first tries exactly the mutexes the connection does not hold, in the order of aDb[]; these tries ascend if and only if aDb[] names them in ascending order |
| `BtMutexOrder.Descending` | test_targets/sqlite3_full/src/btmutex.c:181-197 | A run with aDb[] in descending order in which EnterAll tries the first mutex while it holds the second |
| `BtMutex.MovesInv` | test_targets/sqlite3_full/src/btmutex.c:71-211 | Every step of every connection keeps the invariant, a try that fails on a free mutex included |
| `BtMutex.InitialInv` | test_targets/sqlite3_full/src/btmutex.c:71-97 | Every initial state satisfies it |
| `Backups.RunBackup` | test_targets/sqlite3_full/src/backup.c:314-566 | In every run of steps, forwarded writes, changes of size and external changes: while no fatal result is recorded every source page before iNext equals its copy; iNext>1 only if the object is attached or the backup is over; after DONE the destination equals the source as it was then, and its page count is the number of source pages when page 1 was copied, or what a forwarded write has put into page 1 since |
| `Backups.Backup.Step` | test_targets/sqlite3_full/src/backup.c:314-566 | A step returns DONE on a non-empty source only with the destination a copy of it, its schema cookie one more, its change counter, version-valid-for field and version number written (and file format 2 in WAL mode), and, if it began at page 1, the number of source pages at offset 28; OK only after exactly nPage more pages and with the object attached; after a fatal result nothing changes |
| `Backups.Backup.CopyPages` | test_targets/sqlite3_full/src/backup.c:388-402 | The copy loop extends the copied prefix, by nPage pages unless the source ends; with page 1 it writes the number of source pages at offset 28, which no later page touches |
| `Backups.Backup.SourceWrite` | test_targets/sqlite3_full/src/backup.c:661-688 | A source write forwarded by backupUpdate keeps everything before iNext up to date; one of page 1 carries its own page count along, any other leaves it |
| `Backups.Backup.SourceReplaced` | test_targets/sqlite3_full/src/backup.c:701-707 | sqlite3BackupRestart starts over from page 1 |
| `Backups.Backup.SourceTruncate` | test_targets/sqlite3_full/src/backup.c:390-410 | A shorter source keeps the copied prefix valid |
| `Backups.Finish` | test_targets/sqlite3_full/src/backup.c:414-541 | Header update, truncation and the extra pages around the pending byte together make the destination a copy, for any two page sizes, with the header fields written and the page count untouched |
| `Backups.FinishedIsCopy` | test_targets/sqlite3_full/src/backup.c:460-523 | The per-page copies and the extra loop cover every byte below the source size, except the source's pending-byte page and rewritten header fields (the file format versions only in WAL mode) |
| `Backups.WriteExtraPages` | test_targets/sqlite3_full/src/backup.c:505-520 | The loop writes the source pages that lie in the destination's pending-byte page, and nothing else |
| `Backups.DestTruncateSmaller` | test_targets/sqlite3_full/src/backup.c:449-458 | nDestTruncate satisfies the bound the code asserts, when destination pages are larger |
| `Backups.DestTruncateLarger` | test_targets/sqlite3_full/src/backup.c:449-458 | nDestTruncate is exact when destination pages are not larger |
| `BackupCopy.BackupOnePage` | test_targets/sqlite3_full/src/backup.c:226-279 | One source page, in blocks of the smaller page size: its bytes reach the same offsets of the destination outside the destination's pending-byte page, and no other byte changes |
| `BackupCopy.BlockInDest` | test_targets/sqlite3_full/src/backup.c:255-276 | A block lies within one destination page, and is skipped exactly if that is the pending-byte page |
| `BackupCopy.PageSizesFit` | test_targets/sqlite3_full/src/backup.c:226-279 | Every two powers of two between 512 and 65536 satisfy what the copier needs |
| `BackupCopy.FourBytes` | test_targets/sqlite3_full/src/backup.c:271-273 | The bytes sqlite3Put4byte writes stand for the number modulo 2^32, most significant first |
| `Calendar.FormulasAgree` | test_targets/sqlite3_full/src/date.c:465-489 | For each of the 5373485 days, the closed formulas of computeYMD and computeJD agree with a calendar that turns one page at a time from -4713-11-24 |
| `Calendar.DateFound` | test_targets/sqlite3_full/src/date.c:465-489 | computeYMD undoes computeJD on every valid date |
| `Calendar.MonthLength` | test_targets/sqlite3_full/src/date.c:260-298 | The formula of computeJD gives every month its Gregorian length |
| `Calendar.NextDayNumber` | test_targets/sqlite3_full/src/date.c:260-298 | The next day of the calendar has the next day number |
| `Calendar.Monotone` | test_targets/sqlite3_full/src/date.c:260-298 | computeJD is strictly monotone in calendar order |
| `Calendar.DayLinear` | test_targets/sqlite3_full/src/date.c:277-285 | It is linear in the day field, also where the day overflows its month |
| `DateTimes.InstantOfParts` | test_targets/sqlite3_full/src/date.c:494-505 | Splitting any valid iJD into date and time and joining them gives it back |
| `DateTimes.PartsOfInstant` | test_targets/sqlite3_full/src/date.c:260-298 | Joining any valid date and time and splitting them gives them back |
| `DateTimes.FirstAndLast` | test_targets/sqlite3_full/src/date.c:442-460 | The valid range of iJD is from noon of 24 November -4713 to the last millisecond of 9999 |
| `DateTimes.ToUtc` | test_targets/sqlite3_full/src/date.c:286-294 | A time with zone tz is the instant tz minutes before the same time without one, shown as the date and time of that instant |
| `DateTimes.DateTime.ComputeJD` | test_targets/sqlite3_full/src/date.c:260-298 | iJD, fields and flags after the call, with 2000-01-01 for a missing date, the time zone applied and then cleared together with the fields, and an error for a year out of range |
| `DateTimes.DateTime.ComputeYMD` | test_targets/sqlite3_full/src/date.c:465-489 | Date fields after the call; an error for an iJD out of range |
| `DateTimes.DateTime.ComputeHMS` | test_targets/sqlite3_full/src/date.c:494-505 | Time fields after the call, also on an object without iJD, and with C remainders for instants before the first valid one |
| `Timediff.RoundTrip` | test_targets/sqlite3_full/src/date.c:1618-1707 | For every A and every B as it may be written, day past the end of the month and hour 24 included: applying timediff(A,B) to B gives exactly A if and only if the months they are seen with are in the order of the instants, and a later month of A comes a full day after B if B's hour was 24 past the 28th (otherwise the text is no modifier and the result is NULL) and, unless these months are the same, B reaches the same day as the normalised date does: it was normal already, or the month moved to is as long as the one written, less a day if the hour was 24 |
| `Timediff.NormalisedReturns` | test_targets/sqlite3_full/src/date.c:1618-1707 | That condition holds for all A and B written with a day of their month and an hour below 24, so there the round trip is exact |
| `Timediff.SeenShows` | test_targets/sqlite3_full/src/date.c:1134-1142 | isDate replaces a day past the 28th by the date of the instant, which for a day past the end of its month lies in the month after; if the hour was 24 the fields then stand for one day more than the instant |
| `Timediff.EndOfFebruary` | test_targets/sqlite3_full/src/date.c:1618-1707 | A case where the months are out of order: timediff('2001-02-28 24:00', '2001-03-01') |
| `Timediff.ThirtyFirstOfFebruary` | test_targets/sqlite3_full/src/date.c:1134-1142 | A case where B does not move like its normalised date: timediff('2023-04-03', '2023-02-31') |
| `Timediff.LateOnThe30th` | test_targets/sqlite3_full/src/date.c:1134-1142 | A B that never does, in whatever other month A is: '2023-03-30 24:00' is seen as the 31st at 24:00 |
| `Timediff.TimeDiff` | test_targets/sqlite3_full/src/date.c:1618-1707 | Sign, years, months, days and time returned: B moved by that many months lands in the last month up to A's where it is not after A (or the first from A's on where it is not before), and days and time are the rest, the days modulo the 31 of January; Y is non-negative exactly if the months are in order |
| `Timediff.Backward` | test_targets/sqlite3_full/src/date.c:1650-1663 | The loop for A not before B ends, in the last month in which d2 is not after A, with a leftover under 31 days |
| `Timediff.Forward` | test_targets/sqlite3_full/src/date.c:1684-1697 | The loop for A before B ends, in the first month in which d2 is not before A, with a leftover under 31 days, or up to an hour more if B is past the 28th at hour 24 |
| `Timediff.Apply` | test_targets/sqlite3_full/src/date.c:971-1039 | The instant the modifier (+or-)YYYY-MM-DD, with or without HH:MM:SS.SSS, gives when applied to a date that is not normalised, and when it is rejected |
| `Timediff.AddMonths` | test_targets/sqlite3_full/src/date.c:988-998 | Months are brought back into 1..12 by a truncating division without changing the number of months |
| `HashTable.RunProgram` | test_targets/sqlite3_full/src/hash.c:222-272 | Every sequence of find, insert, replace, delete and clear answers as a map on case-folded keys does, whichever bucket-array allocations fail, and count is the size of that map |
| `HashTable.Hash.Insert` | test_targets/sqlite3_full/src/hash.c:242-272 | Result and contents for insertion, replacement, deletion and an allocation failure |
| `HashTable.Hash.Find` | test_targets/sqlite3_full/src/hash.c:222-226 | The data stored under a key equal but for case |
| `HashTable.Hash.FindElement` | test_targets/sqlite3_full/src/hash.c:153-183 | Scanning only one bucket, or the whole list if there are none, finds the element with the key if there is one |
| `HashTable.Hash.InsertElement` | test_targets/sqlite3_full/src/hash.c:79-104 | The element goes in front of its bucket, the links stay right and every bucket stays one contiguous run |
| `HashTable.Hash.Rehash` | test_targets/sqlite3_full/src/hash.c:113-146 | Re-linking all elements for a new number of buckets keeps exactly the same elements, whatever size the allocator grants |
| `HashTable.Hash.Redistribute` | test_targets/sqlite3_full/src/hash.c:138-144 | The loop that deals all elements out to empty buckets |
| `HashTable.Hash.RemoveElement` | test_targets/sqlite3_full/src/hash.c:188-216 | One element goes; links and runs stay right, also when a bucket becomes empty |
| `HashTable.Hash.CountIsSize` | test_targets/sqlite3_full/src/hash.c:242-272 | The count field is the number of keys |
| `HashTable.Hash.Clear` | test_targets/sqlite3_full/src/hash.c:35-50 | The table is empty |
| `HashRuns.SameKeyMeans` | test_targets/sqlite3_full/src/hash.c:53-75 | Keys compare equal if and only if they are equally long and differ only in the case of ASCII letters |
| `HashRuns.SameHash` | test_targets/sqlite3_full/src/hash.c:53-75 | Keys that compare equal have equal hashes |
| `HashRuns.HashIsWeighted` | test_targets/sqlite3_full/src/hash.c:53-75 | The hash is the sum of the masked bytes, each times 0x9e3779b1 to the power of its distance from the end, modulo 2^32 |
| `HashRuns.StrHash` | test_targets/sqlite3_full/src/hash.c:55-73 | The hashing loop, modulo 2^32 |
| `HashRuns.InsertKeepsBuckets` | test_targets/sqlite3_full/src/hash.c:79-104 | Inserting at the front of a bucket keeps every bucket a run of length count starting at chain |
| `HashRuns.RemoveKeepsBuckets` | test_targets/sqlite3_full/src/hash.c:188-216 | So does removing any element |
| `JsonTheorems.PrintThenParse` | test_targets/cjson/cJSON.c:1227-1304 | Printing and parsing again gives the same tree for every tree of null, booleans, 32-bit integers, plain strings, arrays and objects, formatted or not; it fails exactly for trees nested deeper than 1000 |
| `JsonTheorems.RoundTrip` | test_targets/cjson/cJSON.c:1368-1896 | The same on the texts: Parse(Printed(v)) is v, also when the text must end there |
| `JsonTheorems.PrintedIsDocument` | test_targets/cjson/cJSON.c:1423-1896 | What is printed, formatted or not, is a document of RFC 8259 without a NUL that means the value |
| `JsonTheorems.NestingIsDepth` | test_targets/cjson/cJSON.c:1595-1609 | It is nested as deep as the value |
| `JsonGrammar.DocumentRead` | test_targets/cjson/cJSON.c:1131-1224 | Every document of RFC 8259 whose numbers are integers, with any white space, escapes and surrogate pairs, with or without a byte order mark, is read as the value it means, unless it is nested more than 1000 deep; then it is refused |
| `JsonAcceptance.ParsedExactly` | test_targets/cjson/cJSON.c:1131-1224 | For every text and every value: the value is returned if and only if the text, after a byte order mark if there is one, is white space and a document that means it, followed by nothing but white space if it has to end there. Documents here are those of RFC 8259 but that any character up to the space is white space, leading zeros are allowed and strings are what parse_string takes |
| `JsonAcceptance.ValueExactly` | test_targets/cjson/cJSON.c:1368-1420 | The same for parse_value at any offset of any buffer: exactly the documents are read, each to its end |
| `JsonAcceptance.ValueSound` | test_targets/cjson/cJSON.c:1368-1420 | Whatever parse_value reads is the text of a document that means it |
| `JsonAcceptance.ItemsSound` | test_targets/cjson/cJSON.c:1529-1564 | Whatever the loop of parse_array reads is a list of documents separated by commas |
| `JsonAcceptance.PairsSound` | test_targets/cjson/cJSON.c:1692-1750 | Whatever the loop of parse_object reads is a list of names, colons and documents separated by commas |
| `JsonGrammar.JsonIsWellFormed` | test_targets/cjson/cJSON.c:1368-1420 | Every document of RFC 8259 is one of those |
| `JsonTheorems.PrintsIffShallow` | test_targets/cjson/cJSON.c:1595-1609 | Printing fails exactly on values nested too deeply |
| `JsonTheorems.PrintedApart` | test_targets/cjson/cJSON.c:1423-1494 | Different values never print alike |
| `JsonEscapes.StringRead` | test_targets/cjson/cJSON.c:824-951 | Every string of raw characters, the eight two-character escapes of section 7 of RFC 8259, \u literals in either case and surrogate pairs in any order is read as the bytes its parts stand for, up to the first NUL among them |
| `JsonEscapes.ShortEscapes` | test_targets/cjson/cJSON.c:892-914 | A backslash and a character are read as a byte if and only if the table of section 7 pairs them |
| `JsonEscapes.StringLocal` | test_targets/cjson/cJSON.c:824-951 | Whether and how a text is read as a string does not depend on where in the buffer it stands |
| `JsonEscapes.AcceptedExactly` | test_targets/cjson/cJSON.c:824-951 | A text is a string as section 7 of RFC 8259 allows it, with characters below U+0020 escaped, if and only if the parser accepts it, every \u it meets is followed by four hexadecimal digits and no control character stands between the quotes |
| `JsonEscapes.AcceptedWithControls` | test_targets/cjson/cJSON.c:824-951 | With raw control characters allowed, the parser accepts exactly these strings, as long as every \u it meets is followed by four hexadecimal digits |
| `JsonEscapes.RawNewline` | test_targets/cjson/cJSON.c:868-876 | A text that is accepted although section 7 does not allow it: a raw newline between quotes |
| `JsonEscapes.LiteralExactly` | test_targets/cjson/cJSON.c:703-821 | What becomes of every \u literal: read as its character exactly if its four digits, or eight for a pair, form a scalar value; read as NUL if four characters follow that are not all digits; refused otherwise |
| `JsonEscapes.NotHexadecimal` | test_targets/cjson/cJSON.c:686-689 | The text "\uZZZZ" is accepted as the empty string |
| `JsonEscapes.BadLiteral` | test_targets/cjson/cJSON.c:686-689 | So is every string of one literal with a character that is no digit |
| `JsonEscapes.EveryCharacter` | test_targets/cjson/cJSON.c:703-821 | Every character has a literal in either case, which stands for its UTF-8 bytes |
| `JsonEscapes.NeverSurrogate` | test_targets/cjson/cJSON.c:719-764 | Half a surrogate pair is never accepted |
| `JsonEscapes.Hex4Reads` | test_targets/cjson/cJSON.c:666-699 | Four digits of either case are read as their number, anything else as zero |
| `JsonEscapes.Utf8Means` | test_targets/cjson/cJSON.c:766-813 | The bytes written stand for the code point (section 3 of RFC 3629), as few as can, with continuation marks |
| `JsonGrammar.DocRead` | test_targets/cjson/cJSON.c:1368-1420 | A document at any offset of any buffer, at any depth up to the limit, is read to its end as what it means, or refused if it is nested too deeply |
| `JsonGrammar.ItemsRead` | test_targets/cjson/cJSON.c:1529-1564 | The loop of parse_array over documents separated by commas and white space |
| `JsonGrammar.PairsRead` | test_targets/cjson/cJSON.c:1692-1750 | The loop of parse_object over names, colons and documents |
| `JsonRoundTrip.DocMeans` | test_targets/cjson/cJSON.c:1423-1494 | The document that is printed for a value is one of RFC 8259 and means the value |
| `JsonRoundTrip.PrintedAsSpelled` | test_targets/cjson/cJSON.c:1423-1896 | What is printed for a value is the text of that document |
| `JsonRoundTrip.QuotedAsSpelled` | test_targets/cjson/cJSON.c:954-1073 | A printed string is a quotation of section 7 that stands for the string |
| `JsonRoundTrip.DigitsMean` | test_targets/cjson/cJSON.c:562-663 | The digits printed for an integer are those of section 6, without a leading zero, and their places add up to it |
| `JsonParser.ParseText` | test_targets/cjson/cJSON.c:1131-1224 | The parser computes the specified reading of a C string, with byte order mark, blanks and optional check of the end |
| `JsonParser.ParseBuffer.ParseValueHere` | test_targets/cjson/cJSON.c:1368-1420 | Result, offset and depth after parse_value |
| `JsonParser.ParseBuffer.ParseArrayHere` | test_targets/cjson/cJSON.c:1497-1592 | The same for parse_array, whose loop collects the children |
| `JsonParser.ParseBuffer.ParseObjectHere` | test_targets/cjson/cJSON.c:1662-1777 | The same for parse_object |
| `JsonParser.ParseBuffer.ParseStringHere` | test_targets/cjson/cJSON.c:824-951 | Both passes over a string: finding its end and replacing escapes |
| `JsonParser.ParseBuffer.ParseNumberHere` | test_targets/cjson/cJSON.c:307-408 | Reading an integer |
| `JsonParser.ParseBuffer.SkipWhitespace` | test_targets/cjson/cJSON.c:1090-1113 | Skipping blanks, with the step back at the end of the buffer |
| `JsonParser.ParseHex4` | test_targets/cjson/cJSON.c:666-699 | Four hexadecimal digits, or zero |
| `JsonParser.EncodeUtf8` | test_targets/cjson/cJSON.c:766-813 | The bytes of a code point, six bits at a time from the last |
| `JsonParser.LiteralToUtf8` | test_targets/cjson/cJSON.c:703-821 | Length and bytes of a \u literal, or zero |
| `JsonPrinter.PrintText` | test_targets/cjson/cJSON.c:1239-1304 | The printer produces the specified text |
| `JsonPrinter.PrintBuffer.PrintValue` | test_targets/cjson/cJSON.c:1423-1494 | What print_value appends to the buffer |
| `JsonPrinter.PrintBuffer.PrintArray` | test_targets/cjson/cJSON.c:1595-1659 | The same for print_array |
| `JsonPrinter.PrintBuffer.PrintObject` | test_targets/cjson/cJSON.c:1780-1896 | The same for print_object |
| `JsonPrinter.PrintBuffer.PrintString` | test_targets/cjson/cJSON.c:954-1073 | The same for print_string_ptr, with and without escapes |
| `JsonPrinter.EscapedLength` | test_targets/cjson/cJSON.c:981-1006 | The length computed in the first pass is the length the second pass writes, so the closing quote is put where it belongs |
| `JsonList.AddItemToArray` | test_targets/cjson/cJSON.c:2027-2058 | Appending at the tail found in head->prev; the child list keeps its shape |
| `JsonList.DetachItem` | test_targets/cjson/cJSON.c:2258-2292 | Removing one element, first, last or between, keeps the shape and clears the links of the element |
| `JsonList.InsertItemInArray` | test_targets/cjson/cJSON.c:2334-2366 | Inserting at a position, or appending beyond the end; an item made its own child does no harm exactly if the position is negative or past the end |
| `JsonList.ReplaceItem` | test_targets/cjson/cJSON.c:2368-2415 | Replacing one element; with the parent as the replacement it does no harm exactly if there is nothing to replace |
| `JsonList.OwnChild` | test_targets/cjson/cJSON.c:2334-2415 | After the harmful calls no sequence is the child list of the item any more |
| `JsonList.GetArrayItem` | test_targets/cjson/cJSON.c:1922-1939 | The element at a position |
| `SqlEdit.RenameEditSql` | test_targets/sqlite3_full/src/alter.c:1217-1319 | Replacing disjoint tokens in place, last first, gives the text with all of them replaced at once; it never outgrows the allocated buffer, nSql + nList*nQuot, or 2*nSql when fixing quotes |
| `SqlEdit.RenameCtx.TokenNext` | test_targets/sqlite3_full/src/alter.c:1041-1053 | The token furthest to the right is taken out of the list |
| `SqlEdit.Splice` | test_targets/sqlite3_full/src/alter.c:1299-1307 | memmove and memcpy replace one stretch of the buffer and keep the rest |
| `SqlEdit.StaysWithin` | test_targets/sqlite3_full/src/alter.c:1247-1256 | One more replacement stays within the bound on the running length |
| `SqlTokens.OneMore` | test_targets/sqlite3_full/src/alter.c:1266-1309 | Replacing one more token in front of all others is a single edit of the text |
| `SqlTokens.GapKept` | test_targets/sqlite3_full/src/alter.c:1266-1309 | Text between tokens is unchanged |
| `SqlTokens.ReplacementSize` | test_targets/sqlite3_full/src/alter.c:1272-1297 | How much longer than its token a replacement can be |
| `SqlTokens.SameString` | test_targets/sqlite3_full/src/alter.c:1282-1296 | A requoted string, with the text that followed it, still reads as the same string: the added space keeps two literals apart |
| `SqlTokens.SameName` | test_targets/sqlite3_full/src/alter.c:1272-1280 | What is put in the place of a token is read as the new name, whatever text follows: as an identifier where it is put without quotes, and else in quotes |
| `SqlTokens.RenamedEverywhere` | test_targets/sqlite3_full/src/alter.c:1266-1309 | In the edited text the new name is read in the place of every token, and what follows there is the edited rest |
| `SqlTokens.OneNameReplaced` | test_targets/sqlite3_full/src/alter.c:1272-1280 | One identifier renamed without quotes: the text before it, the new name, the text after it |
| `SqlTokens.Placed` | test_targets/sqlite3_full/src/alter.c:1266-1309 | Each token of any set is replaced by what is meant for it, with the edited rest after it |
| `SqlTokens.SpaceIsNeeded` | test_targets/sqlite3_full/src/alter.c:1278-1278 | Where a space is added, the text without it would read as another string |
| `StorageColumns.ThereAndBack` | test_targets/sqlite3_full/src/build.c:1107-1170 | sqlite3StorageColumnToTable undoes sqlite3TableColumnToStorage on every stored column |
| `StorageColumns.Table.TableColumnToStorage` | test_targets/sqlite3_full/src/build.c:1155-1170 | The loop computes the storage number; negative columns are unchanged |
| `StorageColumns.Table.StorageColumnToTable` | test_targets/sqlite3_full/src/build.c:1107-1115 | The loop with the moving bound ends inside the table, at the stored column with that number |
| `StorageColumns.StorageInRange` | test_targets/sqlite3_full/src/build.c:1117-1154 | Storage numbers are 0..nCol-1, virtual columns come last |
| `StorageColumns.Injective` | test_targets/sqlite3_full/src/build.c:1117-1154 | No two columns share a storage number |
| `StorageColumns.OrderKept` | test_targets/sqlite3_full/src/build.c:1117-1154 | Within each kind the order of the columns is kept |
| `DestroyOrder.DestroyTable` | test_targets/sqlite3_full/src/build.c:3315-3358 | Every distinct root page is destroyed exactly once, in strictly descending order |
| `DestroyOrder.NextRoot` | test_targets/sqlite3_full/src/build.c:3336-3348 | The largest root not yet destroyed, or zero |
| `DestroyOrder.NeverRelocated` | test_targets/sqlite3_full/src/build.c:3316-3331 | In that order every OP_Destroy finds the b-tree that had the page to begin with, although each may move the largest root of the database |
| `DestroyOrder.OthersSurvive` | test_targets/sqlite3_full/src/build.c:3316-3331 | Exactly the b-trees of the table are gone, and all others are still there |
| `DestroyOrder.AscendingFails` | test_targets/sqlite3_full/src/build.c:3321-3331 | The case the comment describes: pages 4 and 5 destroyed in the wrong order |
| `WithoutRowid.Convert` | test_targets/sqlite3_full/src/build.c:2354-2507 | The primary key loses its repeated terms and no others, and in the end covers every stored column; every other index keeps its keys and holds all primary key terms, with nColumn the number of entries filled |
| `WithoutRowid.DedupedTerms` | test_targets/sqlite3_full/src/build.c:2417-2437 | No (column, collation) is repeated and none is lost |
| `WithoutRowid.DedupedInOrder` | test_targets/sqlite3_full/src/build.c:2417-2437 | It is the first occurrence of each term that stays, and they keep their order |
| `WithoutRowid.MissingTerms` | test_targets/sqlite3_full/src/build.c:2451-2483 | Keys and missing terms together include the whole primary key; nothing is appended twice |
| `WithoutRowid.MissingInOrder` | test_targets/sqlite3_full/src/build.c:2451-2483 | Exactly the terms that the keys lack are appended, in the order of the primary key |
| `WithoutRowid.UncoveredColumns` | test_targets/sqlite3_full/src/build.c:2485-2503 | Every column that is neither virtual nor in the key is added exactly once, in the order of the table |
| `WithoutRowid.Index.RemoveRedundant` | test_targets/sqlite3_full/src/build.c:2417-2437 | The in-place loop computes the deduplicated key |
| `WithoutRowid.Index.AppendKey` | test_targets/sqlite3_full/src/build.c:2451-2483 | The loop over the primary key, with the resize that may fail |
| `WithoutRowid.Index.AddTableColumns` | test_targets/sqlite3_full/src/build.c:2485-2503 | The loop over the table's columns, with the resize that may fail |
| `WithoutRowid.Index.Resize` | test_targets/sqlite3_full/src/build.c:2190-2217 | Entries so far are kept; nColumn grows or the call fails |
| `WithoutRowid.IsDupColumn` | test_targets/sqlite3_full/src/build.c:2274-2293 | Whether a key term with the same column and collation exists |
| `WithoutRowid.HasColumn` | test_targets/sqlite3_full/src/build.c:2252-2259 | Whether a column number is among the first n entries |

## Left out

- Stat4.Analyze: ends where the assertion fails, without saying what a build without assertions would do; leaves out the analysis limit, the STAT1-only configuration and the text stat_get() returns.
- Stat4.FillCounts: the counter arrays are sequences that the accumulator reassigns, so aliasing between samples is not captured.
- Bitvecs.Bitvec.Set: the loop that descends into sub-bitvecs is written as recursion, as is the one in Clear; the union's overlapping memory is a datatype, so an in-place reinterpretation of bytes is not captured.
- BtMutexTheorems.NoDeadlockInAnyRun: one thread per connection; threads that hold several connections and the connection mutexes themselves are not modelled, and the Btree lists do not change during a run.
- Backups.RunBackup: the pager, journal and VFS are abstracted to page arrays and result codes; page operations under held locks fail only fatally; the content made for an empty source is not specified.
- Timediff.RoundTrip: the text of the modifier is represented by its numbers; A is given by its instant and the date fields that isDate leaves, B by its fields.
- JsonEscapes.AcceptedExactly: whether bytes from 128 on form UTF-8 is not examined, as the parser does not.
- DateTimes.DateTime.ComputeJD: raw numeric dates, the floor count, local time and the current time are not modelled.
- HashTable.Hash.Insert: counts are unbounded, so the 32-bit product in the resize request does not wrap.
- HashTable.Hash.Clear: does not model that elements are freed.
- JsonParser.ParseBuffer.ParseNumberHere: integers only; a number with a fraction or an exponent is a failure here, because strtod is foreign code, and an integer beyond 32 bits is kept exactly, where the source keeps a double and saturates valueint.
- JsonParser.ParseBuffer.ParseValueHere: the same limits on numbers.
- JsonParser.ParseText: the same limits on numbers.
- JsonAcceptance.ParsedExactly: the same limits on numbers.
- JsonGrammar.DocumentRead: documents with integers only.
- JsonParser.ParseBuffer.ParseArrayHere: children are collected in a sequence; the links between them are modelled in JsonList only. 
- JsonParser.ParseBuffer.ParseObjectHere: the same.
- JsonPrinter.PrintBuffer.PrintString: only bytes that print as themselves or as a two-character escape; other control bytes and heap sizes are not modelled.
- JsonPrinter.PrintText: numbers are 32-bit integers; other numbers go through sprintf. The same holds for PrintValue, PrintArray and PrintObject.
- JsonPrinter.PrintBuffer.PrintValue: the same limit on numbers and strings.
- JsonPrinter.PrintBuffer.PrintArray: the same limit on what is in the array.
- JsonPrinter.PrintBuffer.PrintObject: the same limit on what is in the object.
- JsonList.ReplaceItem: does not model that the replaced item is freed.
- SqlEdit.RenameEditSql: finding the tokens to rename is not modelled; they are given, disjoint and non-empty.
- WithoutRowid.Index.RemoveRedundant: aSortOrder[] is not carried along.
- WithoutRowid.Index.Resize: aSortOrder[] and aiRowLogEst[] are not modelled.
- WithoutRowid.Convert: sort orders, the NOT NULL marking, the generated code and the new index for an INTEGER PRIMARY KEY are not modelled.
- DestroyOrder.DestroyTable: the generated code and the schema update after a move are not modelled.
- StorageColumns.Table.StorageColumnToTable: column numbers are unbounded instead of 16-bit.
- Allocation failures inside cJSON are not modelled.
- Name resolution, authorization and code generation in alter.c, analyze.c and build.c are not modelled.
- sqlite3_backup_remaining() and sqlite3_backup_pagecount() only report numbers.
- complete.c decides whether a text ends a statement by one fixed table; callback.c and fault.c register and call hooks; carray.c and dbpage.c are thin virtual tables; mptest.c and the fuzz harnesses control processes and read files. None of them is modelled.
