# TupleStone, modelled and proved in Dafny

TupleStone is a small embedded SQL database. This project models the parts of it where correctness is hard and proves
what they are for: a commit that was acknowledged survives any crash, concurrent transactions behave as if they ran one
after another, constraints hold in every reachable state, a page cache cannot be told from a plain map, index keys sort
as their values do, numbers compare as numbers, and an expression, with parentheses only where they are needed or
wherever they are allowed, is parsed back to the tree it was written from.

Verify with `dafny verify dfyconfig.toml`. The proofs are sized for `--resource-limit 2000000`.

| file | what it holds |
|---|---|
| `Bytes`, `OrderedMap`, `Values` | bytes and words as bounded integers, `std::map` as a sorted sequence, SQL values and their comparison through doubles, against the exact numbers they stand for |
| `Crc32c` | the polynomial division bit by bit, the table-driven loop, and error detection |
| `Serialization`, `DataFile` | the data-file format as functions, and the `Writer`/`Reader` objects that implement it |
| `Wal` | log records, the reading loop, the `LogManager` object, and what a cut at any byte leaves |
| `Recovery`, `CrashSafety`, `CrashHistory`, `Database` | replay, the machine of commits, checkpoints, crashes and restarts, what holds of its runs with and without `sync_on_commit`, and the object whose operations are runs of that machine |
| `Constraints`, `Catalog`, `Transactions` | row validation and the row loops, the catalog tables, and interleaved connections |
| `Durability` | the connections on top of the crash-safety machine: what is recovered is serial and holds all acknowledged commits |
| `Pages`, `BufferPool`, `PoolRuns` | checksummed pages and the free list, the buffer pool, and whole client runs |
| `Keys`, `Index`, `LruK`, `Snapshots` | memcomparable keys, the ordered index, the LRU-K replacer, MVCC snapshots |
| `Like`, `Syntax`, `Parser`, `ParserRoundTrip` | the LIKE loop, and the expression parser with its round trip |

Objects whose methods update fields in the C++ code are classes here, with the same methods. Each method is proved
against a specification function or an abstract state, and the lemmas are about those. A mutex-guarded method is one
atomic step.

Properties that turn out false of the code, with the exact condition under which they hold:

- LIKE agrees with its recursive definition for every pattern exactly when the value has no `%` (`Like.CorrectExactly`).
- `DecodeKey` inverts `EncodeKey` exactly on values that are not an empty TEXT or BLOB (`Keys.DecodeExactly`).
- Descending keys reverse the order exactly when it is not an empty string beside one starting with a NUL byte
  (`Keys.DescendingKeyOrder`).
- Saving and loading tables gives them back exactly when they fit the format (`Serialization.RoundTrip`).
- Every run is crash safe exactly when `sync_on_commit` is set and all that clients may write fits the data-file format
  (`CrashSafety.SafeExactly`). Without it, the first of two acknowledged commits can come back
  (`CrashSafety.UnsyncedLosesCommit`). With it, an acknowledged commit outside the format is lost all the same
  (`CrashSafety.UnfitCommitLost`): a table of 10001 columns is created, acknowledged, and never read back
  (`CrashSafety.WideTableLost`). As a restart that fails still closes the database and so overwrites the data file, that
  table can cost all others (`CrashSafety.WideTableEmptiesDatabase`).
- What comes back is always a committed snapshot exactly when no checkpoint, and no close with an empty log, saves the
  rows that a failed statement left in memory (`CrashHistory.WholeExactly`); a run that brings such a row back is in
  `CrashHistory.DirtyInsertRecovered`.
- The shared tables stay serializable exactly when no failed autocommit statement left rows behind
  (`Transactions.SerializableExactly`), and such a statement leaves rows exactly when the first row it would change is
  accepted (`Transactions.CleanExactly`).
- Such a run exists: `Transactions.DirtyRunExists`.
- An expression in parentheses is parsed back exactly when it does not end in an IN list that is not empty
  (`ParserRoundTrip.ParseGroup`, with a concrete input in `ParserRoundTrip.InTakesOuterParenthesis`): the list takes one
  parenthesis too many exactly when it is not empty and another one follows (`Parser.Parser.ParseIn`).
- All integers of magnitude up to a bound are told apart in a comparison exactly when the bound is at most 2^53
  (`Values.ExactUpTo`); beyond it they may be found equal, but never in the wrong order (`Values.CompareNeverInverts`).
- A UNIQUE column can hold a value twice exactly when the value is NaN (`Constraints.RepeatsExactly`).
- Freeing a page keeps the free list and the pages in use apart exactly when the page is not free already
  (`Pages.FreeExactly`).

Where `ARCHITECTURE.md` and the code disagree, the code is followed: a log record has a 25-byte header after its length
and no reserved bytes.

## Model

| member | source | states |
|---|---|---|
| `Crc32c.MakeTable` | src/common/crc32c.cpp:14-24 | the nested loops fill each of the 256 entries with eight polynomial steps on its index |
| `Crc32c.LookupIdentity` | src/common/crc32c.cpp:32-38 | eight polynomial steps on any register equal one table lookup of its low byte combined with the shifted rest |
| `Crc32c.ExtendByTable` | src/common/crc32c.cpp:32-38 | the table-driven byte loop computes the bitwise CRC32C of the data, continued from any prior checksum |
| `Crc32c.ExtendIsIncremental` | src/common/crc32c.cpp:32-43 | extending the checksum of one message by another gives the checksum of their concatenation |
| `Crc32c.BurstDetected` | src/common/crc32c.cpp:40-43 | two messages of equal length, however long, that differ only within four consecutive bytes never share a checksum |
| `Crc32c.PolyIsCastagnoli` | src/common/crc32c.cpp:8-10 | the divisor is the polynomial of section 12.1 of RFC 3720, given by its exponents, reflected |
| `Crc32c.Residue` | src/common/crc32c.cpp:32-43 | every message followed by its inverted checksum has the checksum of all ones, and the empty one has zero: the register starts at all ones and is inverted at the end |
| `Values.CompareSmallIntegers` | src/common/value.cpp:140-178 | integers from -2^53 to 2^53 compare as integers, and are equal exactly when they are equal, although they go through doubles |
| `Values.ExactUpTo` | src/common/value.cpp:140-178 | all integers of magnitude up to a bound are told apart if and only if the bound is at most 2^53 |
| `Values.CompareNeverInverts` | src/common/value.cpp:142-148 | for all 64-bit integers, the smaller one never compares as the greater: rounding to double is monotone |
| `Values.LargeIntegersCollide` | src/common/value.cpp:142-148 | 2^53 and 2^53 + 1 compare equal: the first pair beyond the exact range |
| `Values.CompareIsNumeric` | src/common/value.cpp:140-149 | REAL values and INTEGER values up to 2^53 either way compare as the exact numbers they stand for, a significand times a power of two, with each other and among themselves |
| `Values.IntegerPlaceNearest` | src/common/value.cpp:144-146 | an INTEGER of any size is compared as the nearest number with a 53-bit significand, and of two equally near ones as the one with the even significand |
| `Values.OneIsOne` | src/common/value.cpp:140-178 | INTEGER 1 equals REAL 1.0 and is less than REAL 1.5 |
| `Values.CompareOthers` | src/common/value.cpp:140-166 | false is less than true, TEXT and BLOB compare bytewise, and there is no answer exactly with NULL, with NaN, and between types that are not both numeric |
| `DataFile.Writer.Unsigned` | src/api/db.cpp:49-54 | the shift loop appends the little-endian bytes of the value |
| `DataFile.Writer.ValueData` | src/api/db.cpp:59-87 | a value is appended as its type tag and payload |
| `DataFile.SerializeTables` | src/api/db.cpp:180-201 | the nested loops over tables, columns, rows and values produce the format that Serialization defines |
| `DataFile.Reader.Unsigned` | src/api/db.cpp:101-120 | the byte loop assembles the little-endian number at the current position, or fails when bytes are missing |
| `DataFile.Reader.ValueData` | src/api/db.cpp:128-172 | exactly the well-tagged, complete values are read, and the position moves behind them |
| `DataFile.LoadTablesBytes` | src/api/db.cpp:224-276 | the reading loops accept exactly what Serialization.Load accepts, with the same tables and the same kind of error |
| `Serialization.RoundTrip` | src/api/db.cpp:180-276 | loading what was saved gives the same tables if and only if they are within the format limits |
| `Serialization.LoadedIsStable` | src/api/db.cpp:224-276 | whatever loads survives a further save and load unchanged |
| `Serialization.AcceptedIsPrefixFree` | src/api/db.cpp:224-276 | no proper extension, hence no proper prefix, of an accepted file is accepted |
| `Serialization.CutOrExtendedFileRejected` | src/api/db.cpp:180-276 | every proper prefix and every non-empty extension of a saved file is rejected |
| `Serialization.SmallFile` | src/api/db.cpp:180-201 | the literal bytes of the file of one table with two columns and one row |
| `Bytes.LittleEndianAt` | src/api/db.cpp:49-54 | byte i of a number in the file has weight 256^i |
| `Bytes.LowerMeans` | src/api/db.cpp:31-36 | A to Z become a to z, and no other byte changes |
| `Wal.ReadRecords` | src/wal/log_manager.cpp:36-89 | the loop over the stream returns the longest run of whole, checksummed records at its front |
| `Wal.ReadOneInverse` | src/wal/log_manager.cpp:36-89 | the reader accepts a record only where its exact encoding stands |
| `Wal.CutAnywhere` | src/wal/log_manager.cpp:36-89 | reading any byte prefix of appended records returns exactly the records wholly inside it |
| `Wal.WholeIsExact` | src/wal/log_manager.cpp:36-89 | the number of records wholly inside a prefix is the largest whose encodings fit in it |
| `Wal.RecordsAreAPrefix` | src/wal/log_manager.cpp:36-89 | of any file, however damaged, the records read are encoded by its front bytes |
| `Wal.ValidBytesIsExact` | src/wal/log_manager.cpp:112-131 | the sum of 33 plus payload sizes that tail repair uses is the exact length of the valid front |
| `Wal.AppendsAfterRepairReadable` | src/wal/log_manager.cpp:112-168 | after tail repair every later append is read back behind the surviving records |
| `Wal.RecordLayout` | src/wal/log_manager.cpp:141-168 | where each field of a record stands, and that the checksum covers all before it |
| `Wal.DamageNoticed` | src/wal/log_manager.cpp:36-89 | a record in which up to four consecutive bytes behind its length field, and before its checksum, were changed is not read |
| `Wal.LogManager.Open` | src/wal/log_manager.cpp:97-131 | cuts the torn tail, keeps every whole record, and numbers on behind the last one |
| `Wal.LogManager.Append` | src/wal/log_manager.cpp:141-168 | appends the encoding of one record with the next LSN, or refuses an oversized payload and changes nothing |
| `Wal.LogManager.Flush` | src/wal/log_manager.cpp:170-184 | everything written becomes durable, whatever LSN is named |
| `Wal.LogManager.Truncate` | src/wal/log_manager.cpp:192-205 | empties the log and restarts LSNs |
| `Recovery.RecoverCommittedTables` | src/api/db.cpp:917-941 | the loop with its map of pending snapshots computes the replay of the log, or reports an unreadable snapshot |
| `Recovery.ReplayOfLog` | src/api/db.cpp:917-948 | replaying a log that commits wrote yields the snapshot of its last COMMIT, or the data file if there is none, and the largest transaction id |
| `CrashHistory.IdsNeverReused` | src/api/db.cpp:901-941 | with or without sync_on_commit, over every run of commits of any tables, failing statements, crashes and restarts, and at every cut, LSNs in the log strictly increase and every BEGIN has an id larger than all before it |
| `CrashHistory.OrphansNeverInstalled` | src/api/db.cpp:924-939 | over every such run and cut, the id of a COMMIT occurs in exactly three records, its BEGIN, its UPDATE and itself, one behind the other, so no orphaned snapshot can be installed |
| `CrashSafety.StepKeeps` | src/api/db.cpp:899-948 | every disk or memory sub-step of commit, checkpoint, close, load, repair and replay, a failing statement, and a crash at any of them, keeps the recovery invariant, as long as what comes into memory fits the format |
| `CrashSafety.CutValue` | src/api/db.cpp:899-948 | a crash in any phase, cutting the log at any unflushed byte, leaves exactly the surviving snapshot on disk |
| `CrashSafety.EveryRunIsSafe` | src/api/db.cpp:899-948 | with sync_on_commit, after any run within the format and any cut, reopening yields the last commit left in the log or the data file, and that is exactly the acknowledged tables or those of the one commit in progress |
| `CrashSafety.RestartCompletes` | src/api/db.cpp:1438-1455 | a restart left in peace ends with an open database holding the stable tables |
| `CrashSafety.RecoveryIsIdempotent` | src/api/db.cpp:917-948 | any number of further crashes, half-finished or finished restarts and checkpoints, and a last crash at any cut, recover the user tables that one restart would have recovered at once |
| `CrashSafety.AcknowledgedStays` | src/api/db.cpp:899-948 | what a commit made stable stays recoverable through any run of checkpoints, crashes and restarts until another commit is tried |
| `CrashSafety.CommitCompletes` | src/api/db.cpp:899-915 | a commit left in peace logs its three records, saves the data file, makes its tables stable, and is the last commit in the log |
| `CrashHistory.AllOrNothing` | src/api/db.cpp:899-948 | with or without sync_on_commit, after every run within the format and at every cut a restart succeeds with the last commit left in the log or the data file; when no checkpoint or close saved rows of a failed statement, its user tables are one whole snapshot that was handed to a commit |
| `CrashHistory.NeverMixed` | src/api/db.cpp:899-948 | in any case they are one whole committed snapshot, or what one failed statement left in memory: never a mixture |
| `CrashHistory.WholeExactly` | src/api/db.cpp:1469-1483 | with sync_on_commit, a committed snapshot comes back throughout a run if and only if no checkpoint, and no close with an empty log, saves leftover rows |
| `CrashHistory.LeftoversRecovered` | src/api/db.cpp:1469-1475 | a commit, a failing statement and a checkpoint: the rows that were left come back, although no commit was handed them |
| `CrashHistory.DirtyInsertRecovered` | src/api/db.cpp:1195-1196 | this happens with the failing INSERT of two equal keys |
| `CrashHistory.RecoveredTablesAreValid` | src/api/db.cpp:917-948 | replay brings back only tables that keep their constraints, when every commit and every failed statement did, whatever sync_on_commit is and whatever checkpoints saved |
| `CrashSafety.UnsyncedLosesCommit` | src/api/db.cpp:910-913 | without sync_on_commit, two commits are acknowledged one after the other, and the cut between them brings back exactly the first |
| `CrashSafety.UnfitCommitLost` | src/api/db.cpp:899-948 | whatever sync_on_commit is, every acknowledged commit of tables outside the format is lost: no restart gives them back |
| `CrashSafety.WideTableLost` | src/api/db.cpp:233-237 | so it is for a table of 10001 columns, with everything flushed |
| `CrashSafety.FailedOpenErases` | src/api/db.cpp:1435-1450 | a restart that cannot read the data file replaces it by an empty one |
| `CrashSafety.WideTableEmptiesDatabase` | src/api/db.cpp:1435-1483 | after that commit, a checkpoint, a crash, a restart that fails and one that succeeds, the database is empty |
| `CrashSafety.SafeExactly` | src/api/db.cpp:899-948 | whatever clients may write, as long as that is more than one thing, every run is safe at every cut if and only if sync_on_commit is set and all they may write fits the format |
| `CrashSafety.SafeExactlyWhenSynced` | src/api/db.cpp:899-948 | over runs within the format, that is if and only if sync_on_commit is set |
| `Durability.RecoveredIsSerial` | src/api/db.cpp:899-1066 | with sync_on_commit, after any interleaving of clients, checkpoints, crashes and restarts, and at any cut, the recovered user tables are the serial execution of a front part of the commit log that holds every acknowledged commit |
| `Durability.AcknowledgedForever` | src/api/db.cpp:899-1066 | no later action and no crash takes an acknowledged commit out of that log or changes its place |
| `Durability.AcknowledgedInPeace` | src/api/db.cpp:899-1066 | a client's commit that fits a log record, left in peace, is acknowledged: an autocommit statement that wrote, or a transaction that did not lose the race |
| `Database.Database.Persist` | src/api/db.cpp:899-915 | logs BEGIN, UPDATE and COMMIT, flushes if asked to, replaces the data file; a snapshot too large for one record stops after BEGIN |
| `Database.Database.Commit` | src/api/db.cpp:1026-1033 | installing any tables, moving to the next generation and persisting is exactly a commit run of the crash-safety machine |
| `Database.Database.Checkpoint` | src/api/db.cpp:1469-1475 | saving the data file and truncating the log is exactly a checkpoint run of the machine |
| `Database.Database.Open` | src/api/db.cpp:1435-1461 | loading, repairing, replaying and saving fails exactly on unreadable data or an unreadable snapshot, and then replaces the data file by what it had in memory; on a disk that commits within the format wrote, it succeeds and is exactly a restart run of the machine |
| `Constraints.ValidateRow` | src/api/db.cpp:793-812 | accepts exactly the rows of schema width, without forbidden NULLs, of compatible types, that share no non-NULL key with another row; otherwise it names the fault and the first column that has it |
| `Constraints.IdenticalKeys` | src/api/db.cpp:804-810 | rows of a valid table have identical values in a PRIMARY KEY or UNIQUE column only where both are NULL or NaN |
| `Constraints.RepeatsExactly` | src/api/db.cpp:804-810 | a UNIQUE column can hold a non-NULL value twice if and only if it is NaN |
| `Constraints.InsertKeepsValid` | src/api/db.cpp:1181-1200 | however far it gets, INSERT leaves a valid table that begins with the old rows |
| `Constraints.InsertEffect` | src/api/db.cpp:1181-1200 | INSERT appends exactly its rows in their order: all of them if it succeeds, and otherwise those before the first that cannot be evaluated or is refused |
| `Constraints.FailedInsertTrace` | src/api/db.cpp:1195-1196 | a failed INSERT leaves no trace if and only if its first row was the one refused |
| `Constraints.UpdateKeepsValid` | src/api/db.cpp:1219-1236 | row-by-row UPDATE, complete or stopped half way, keeps the table valid, its row count, and the rows before the start |
| `Constraints.UpdateEffect` | src/api/db.cpp:1219-1236 | row by row: UPDATE gives every selected row its assigned value and leaves every other row alone, up to the end if it succeeds, and otherwise up to the first row that cannot be evaluated or is refused; that row and those behind it stay as they were |
| `Constraints.UpdateTrace` | src/api/db.cpp:1219-1236 | an UPDATE leaves the table as it was if and only if the first row it does not leave alone is refused |
| `Constraints.KeptIsSubsequence` | src/api/db.cpp:1250-1258 | DELETE keeps exactly the unselected rows, in their order |
| `Constraints.DeleteEffect` | src/api/db.cpp:1239-1259 | DELETE succeeds exactly when its clause can be evaluated on every row, and otherwise changes nothing |
| `Constraints.DeleteKeepsValid` | src/api/db.cpp:1239-1259 | DELETE keeps the table valid |
| `Constraints.TableStore.Insert` | src/api/db.cpp:1181-1200 | the loop validates and appends row by row, and stops at the first failure with the earlier rows in place |
| `Constraints.TableStore.Update` | src/api/db.cpp:1219-1236 | the in-place loop validates each new row against the table as already rewritten, and its effect is that of UpdateEffect |
| `Constraints.TableStore.Delete` | src/api/db.cpp:1250-1258 | the loop replaces the rows only when the clause evaluates on all of them |
| `Catalog.RefreshCatalog` | src/api/db.cpp:814-851 | the loop recomputes the three catalog tables from the others, in name order |
| `Catalog.RefreshKeepsUser` | src/api/db.cpp:814-851 | every other table is left alone |
| `Catalog.RefreshOfUser` | src/api/db.cpp:814-851 | the result depends on the user tables only, so refreshing is idempotent and erases stale catalogs |
| `Catalog.RefreshKeepsValid` | src/api/db.cpp:814-851 | refreshing keeps all constraints, including the catalog's own PRIMARY KEY and UNIQUE columns |
| `Catalog.TableCells` | src/api/db.cpp:837-841 | the table catalog has one row for each listed table, in name order: its number, its name, no page, and how many rows it has |
| `Catalog.ColumnCells` | src/api/db.cpp:842-848 | the column catalog has one row for each column of each of them, in order, with its number, ordinal, name, type and flags |
| `Transactions.CleanRunIsSerial` | src/api/db.cpp:1016-1040 | over any interleaving of connections with clean statements, the shared tables equal the committed bodies run one after another |
| `Transactions.SerializableExactly` | src/api/db.cpp:1016-1066 | that holds throughout a run if and only if no failed autocommit statement left rows behind |
| `Transactions.CleanExactly` | src/api/db.cpp:1195-1235 | a failed autocommit statement on a user table leaves no trace if and only if the first row it would change was refused |
| `Transactions.DirtyInsertExists` | src/api/db.cpp:1195-1196 | an INSERT of two equal keys fails and leaves exactly its first row behind |
| `Transactions.DirtyRunExists` | src/api/db.cpp:1061-1196 | a run that is not serial: in a new database, an autocommit CREATE TABLE and that INSERT |
| `Transactions.OneCommitPerGeneration` | src/api/db.cpp:1022-1029 | on every run, the i-th commit is of a transaction that began at generation i, so no two transactions of one start generation commit |
| `Transactions.LeavesNoTrace` | src/api/db.cpp:1022-1040 | a transaction that is rolled back or loses the race can be taken out of any run: the server ends in the very same state, whatever its connection and the others do before, meanwhile and later |
| `Transactions.ConstraintsAlwaysHold` | src/api/db.cpp:793-1259 | in every reachable state, shared tables and private copies keep all constraints, also after statements that failed half way |
| `Transactions.StatementEffect` | src/api/db.cpp:1103-1259 | a statement changes the table it names as that statement does, changes no other table, and has exactly the outcome it should |
| `Transactions.DropAndCreate` | src/api/db.cpp:1103-1158 | after DROP the name is gone, and it succeeds exactly when the table was there; CREATE makes an empty table exactly when the name was free, and does nothing without an error exactly when the table exists and IF NOT EXISTS is given |
| `Transactions.PrivateCopy` | src/api/db.cpp:1044-1050 | a transaction works on its own copy of the tables it began with, whatever others commit meanwhile |
| `Transactions.CommitExactly` | src/api/db.cpp:1016-1034 | on every run, a commit succeeds if and only if nothing was committed since its transaction began; it then installs what its statements make of the tables it began with, and otherwise changes nothing |
| `Transactions.AutocommitExactly` | src/api/db.cpp:1061-1066 | on every run, a statement outside a transaction works on the shared tables, and is committed exactly when it wrote |
| `Pages.StampIsGood` | src/disk/disk_manager.cpp:183-196 | a page as written passes the checksum test of reading |
| `Pages.HeaderBack` | src/disk/disk_manager.cpp:80-126 | a header page as written is read back |
| `Pages.HeaderLayout` | src/disk/disk_manager.cpp:103-126 | where the magic string, the page count, the head of the free list and the checksum of the header page stand |
| `Pages.FreePageLayout` | src/disk/disk_manager.cpp:202-205 | every byte of a free page: its type, the next page, and zeros |
| `Pages.DamageNoticed` | src/disk/disk_manager.cpp:159-176 | a good page in which up to four consecutive bytes behind the checksum were changed is refused |
| `Pages.AllocateKeeps` | src/disk/disk_manager.cpp:128-151 | AllocatePage never returns a page in use, leaves other pages alone, and keeps every page with exactly one owner |
| `Pages.AllocateFailsExactly` | src/disk/disk_manager.cpp:128-151 | allocation fails if and only if every page id is held or leaked |
| `Pages.FreeKeeps` | src/disk/disk_manager.cpp:198-209 | FreePage puts a page in use, or one that leaked, at the head of an acyclic on-disk chain and keeps every page with exactly one owner |
| `Pages.FreeExactly` | src/disk/disk_manager.cpp:198-209 | after FreePage some ownership of all pages is sound if and only if the page was not on the chain already: a double free makes a cycle |
| `Pages.AllocateCrash` | src/disk/disk_manager.cpp:128-151 | a crash between the page write and the header write may leak pages, but puts none on both sides |
| `Pages.FreeCrash` | src/disk/disk_manager.cpp:198-209 | a crash between the page write and the header write leaks the page: it is neither held nor free |
| `Pages.NewDiskInv` | src/disk/disk_manager.cpp:35-69 | a new file, its header page alone, starts out with every page accounted for |
| `Pages.EveryRunConserves` | src/disk/disk_manager.cpp:128-209 | over any run with any crashes, each page from 1 to page_count - 1 is held, on the chain exactly once, or leaked |
| `BufferPool.DiskManager.AllocatePage` | src/disk/disk_manager.cpp:128-151 | a page nobody held, zeroed but for its header, with all other held pages unchanged; it fails only when page ids run out |
| `BufferPool.DiskManager.FreePage` | src/disk/disk_manager.cpp:198-209 | takes exactly the pages in range but the header, and the pages stay apart exactly when the page was not free already |
| `BufferPool.DiskManager.ReadPage` | src/disk/disk_manager.cpp:159-176 | reads exactly the pages in range whose checksum is good, which all held pages are |
| `BufferPool.DiskManager.WritePage` | src/disk/disk_manager.cpp:178-196 | writes exactly the pages in range, with their checksum except for the header page; a page that is not free can be overwritten without harm to the list |
| `BufferPool.BufferPoolManager.Victim` | src/buffer/buffer_pool_manager.cpp:35-52 | finds no frame exactly when all are pinned, and otherwise the cached unpinned one of least age |
| `BufferPool.LeastRecent` | src/buffer/buffer_pool_manager.cpp:35-81 | while the clock has not run out, the frame of least age holds a page that no other unpinned one was used before, told by the full history of accesses |
| `BufferPool.BufferPoolManager.FetchPage` | src/buffer/buffer_pool_manager.cpp:53-81 | a fetch shows bytes 4..4095 as last written; it fails with OutOfMemory exactly on a miss with every frame pinned, and fails to read exactly outside the file; what it evicts is the least recently used unpinned page |
| `BufferPool.BufferPoolManager.NewPage` | src/buffer/buffer_pool_manager.cpp:82-94 | a page nobody held joins the map, empty and pinned for writing; it fails with OutOfMemory exactly when an id is left but every frame is pinned, and then changes nothing a client can see |
| `BufferPool.BufferPoolManager.Write` | src/buffer/buffer_pool_manager.cpp:95-102 | a write through a writable guard changes that page of the plain map and nothing else |
| `BufferPool.BufferPoolManager.Drop` | src/buffer/buffer_pool_manager.cpp:22-27 | dropping a guard unpins once, marks written frames dirty and leaves the map alone |
| `BufferPool.BufferPoolManager.Move` | src/buffer/buffer_pool_manager.cpp:6-18 | move assignment drops the target's guard once and hands the source's over |
| `BufferPool.BufferPoolManager.FlushPage` | src/buffer/buffer_pool_manager.cpp:107-115 | a cached page reaches disk as the map has it, and no other frame changes |
| `BufferPool.BufferPoolManager.FlushAllPages` | src/buffer/buffer_pool_manager.cpp:116-124 | afterwards disk has every page as the map has it, except where a writable guard is live |
| `BufferPool.BufferPoolManager.DeletePage` | src/buffer/buffer_pool_manager.cpp:125-136 | succeeds exactly on pages in range, but the header, without a live guard; a page that was not free leaves the map and joins the free list |
| `PoolRuns.Client.Do` | src/buffer/buffer_pool_manager.cpp:35-136 | each operation does exactly what it would do on a plain map of pages: what it shows, writes, creates, deletes, pins and releases; a fetch fails exactly when every frame is under guard and the page is not, a new page exactly when no id is left or every frame is under guard |
| `PoolRuns.Client.Play` | src/buffer/buffer_pool_manager.cpp:35-136 | every run of operations is such a run on a plain map, whatever the pool held before, its size and its evictions; it ends early only when every page id is held or leaked |
| `PoolRuns.EveryRunIsConsistent` | src/buffer/buffer_pool_manager.cpp:35-136 | in every such run each page seen has the bytes last written to it, and no page is created that is still in use |
| `LruK.LRUKReplacer.RecordAccess` | src/buffer/lruk_replacer.cpp:4-10 | the bounded access list stays the last k of the full access history |
| `LruK.LRUKReplacer.SetEvictable` | src/buffer/lruk_replacer.cpp:11-16 | marks the frame and enters an unknown one with one access |
| `LruK.LRUKReplacer.Evict` | src/buffer/lruk_replacer.cpp:17-38 | removes the evictable frame of greatest backward K-distance over the full history, in any scan order |
| `LruK.VictimUnique` | src/buffer/lruk_replacer.cpp:17-38 | there is never more than one such frame |
| `LruK.FartherTotal` | src/buffer/lruk_replacer.cpp:17-38 | the histories of two frames never tie in backward K-distance |
| `LruK.LRUKReplacer.Size` | src/buffer/lruk_replacer.cpp:43-51 | the loop counts the evictable frames |
| `Keys.AppendBigEndian` | src/common/value.cpp:182-185 | the shift loop appends the big-endian bytes |
| `Keys.AppendEscaped` | src/common/value.cpp:195-203 | the loop appends the blocks of eight bytes with their flags, or a single zero for an empty string |
| `Keys.Encode` | src/common/value.cpp:207-241 | builds the key and, for descending order, inverts it in place |
| `Keys.DecodeBlocks` | src/common/value.cpp:264-284 | the block loop decodes exactly complete, well-flagged blocks |
| `Keys.DecodeExactly` | src/common/value.cpp:207-289 | DecodeKey inverts ascending EncodeKey if and only if the value is not an empty TEXT or BLOB |
| `Keys.EscapedOrder` | src/common/value.cpp:195-203 | encodings of byte strings, including embedded NULs and lengths at multiples of 8, sort exactly as the strings, and differ when they do |
| `Keys.ChunksPrefixFree` | src/common/value.cpp:195-203 | no encoding of a non-empty string is a prefix of another's |
| `Keys.DescendingExactly` | src/common/value.cpp:195-241 | the inverted encoding reverses the order if and only if it is not an empty string beside one that starts with NUL |
| `Keys.KeyOrder` | src/common/value.cpp:207-241 | keys of one type sort as their values: signed order for INTEGER, totalOrder of section 5.10 of IEEE 754-2008 for REAL bits, bytewise for TEXT and BLOB; distinct values have distinct keys |
| `Keys.DescendingKeyOrder` | src/common/value.cpp:207-241 | descending keys of one type sort in reverse value order, with the same one exception, exactly |
| `Index.BPlusTree.Insert` | src/index/b_plus_tree.cpp:6-15 | refuses invalid rows, second rows in a unique index and duplicates, and otherwise adds the row at the end of its key |
| `Index.InsertEffect` | src/index/b_plus_tree.cpp:6-15 | an insertion makes exactly one more entry live |
| `Index.BPlusTree.Remove` | src/index/b_plus_tree.cpp:16-28 | fails exactly on a missing key, leaves no empty entry behind |
| `Index.RemoveEffect` | src/index/b_plus_tree.cpp:16-28 | a removal ends exactly the named entry, or all of the key in a unique index or without a valid row |
| `Index.BPlusTree.SearchAll` | src/index/b_plus_tree.cpp:35-39 | returns exactly the live rows of the key |
| `Index.BPlusTree.RangeFrom` | src/index/b_plus_tree.cpp:40-46 | the loops return exactly the live entries whose key is not below the bound |
| `Index.RangeByValue` | src/index/b_plus_tree.cpp:40-46 | the range from an encoded value holds exactly the live entries of values not below it |
| `Index.RangeInValueOrder` | src/index/b_plus_tree.cpp:40-46 | and lists them in value order |
| `Index.RangeOfColumn` | src/index/b_plus_tree.cpp:40-46 | nothing else is in the range of a nullable column: no NULL entry, no smaller value and no other type |
| `Snapshots.TransactionManager.BeginTransaction` | src/txn/transaction_manager.cpp:3-12 | gives out the next id with a snapshot of the state before it |
| `Snapshots.TransactionManager.CommitTransaction` | src/txn/transaction_manager.cpp:13-21 | succeeds exactly on an active handle, which is then committed and no longer active; otherwise nothing changes |
| `Snapshots.TransactionManager.AbortTransaction` | src/txn/transaction_manager.cpp:22-29 | succeeds exactly on an active handle, which is then aborted and no longer active, while the committed ids stay as they were; otherwise nothing changes |
| `Snapshots.TransactionManager.IsCommitted` | src/txn/transaction_manager.cpp:30-33 | exactly the ids whose handle is committed |
| `Snapshots.TransactionManager.CurrentSnapshot` | src/txn/transaction_manager.cpp:34-41 | the snapshot shows the state now, without the asker |
| `Snapshots.EveryFate` | src/txn/transaction_manager.cpp:3-29 | over every run, told by the steps alone: an id is committed if and only if the first of its commits and aborts after the Begin that gave it out is a commit, aborted if and only if it is an abort, and active if and only if there is none |
| `Snapshots.SeesThePast` | src/txn/transaction_manager.cpp:3-41 | over every run, what a snapshot sees, now and for ever, are exactly the other transactions whose commit came before it was taken |
| `Snapshots.BeginSnapshotStable` | src/txn/transaction_manager.cpp:3-29 | what the snapshot of a new transaction sees of others never changes over any later run |
| `Snapshots.CurrentSnapshotStable` | src/txn/transaction_manager.cpp:13-41 | nor does what a current snapshot sees |
| `Snapshots.BelowXminFinished` | src/txn/transaction_manager.cpp:3-41 | every id below xmin but the owner's had finished when the snapshot was taken |
| `Like.Evaluate` | src/api/db.cpp:728-749 | both loops, with one saved wildcard, take fewer than (length of value + 1) * (length of pattern + 1) iterations together, and answer as the function Like |
| `Like.Sound` | src/api/db.cpp:728-749 | on all inputs, a reported match is a match of the recursive definition of `%` and `_` |
| `Like.Correct` | src/api/db.cpp:728-749 | without `%` in the value, or in the pattern, the answer is that of the recursive definition: earlier wildcards never need revisiting |
| `Like.CorrectExactly` | src/api/db.cpp:735-739 | a value is answered correctly for every pattern if and only if it has no `%` |
| `Like.WitnessDiffers` | src/api/db.cpp:735-739 | for each value with a `%` there is a pattern that matches it and is reported not to |
| `Parser.Parser.Accept` | src/api/db.cpp:401-412 | takes the token, or the closing parenthesis that was just expected, once |
| `Parser.Parser.Expression` | src/api/db.cpp:428-574 | on any tokens it ends inside the list; on a well-formed tree, with or without parentheses, IN tests included, it returns that tree and consumes exactly its tokens; on a group that ends in an IN list it refuses |
| `Parser.Parser.ParsePrimary` | src/api/db.cpp:504-574 | the same for operands, groups, calls, literals and parameters |
| `Parser.Parser.ParseIn` | src/api/db.cpp:455-465 | the list is parsed to its items, and one parenthesis too many is taken exactly when the list is not empty and another one follows |
| `ParserRoundTrip.ParseWritten` | src/api/db.cpp:396-574 | every well-formed tree comes back from its tokens, exactly these are consumed, and no parenthesis is owed: each operand binds tightly enough for its place or stands in parentheses, which may also stand where they are not needed; no name or string is spelled like what the parser takes at its place (a sign, NOT or an opening parenthesis anywhere, a star at the start of an argument, a closing parenthesis at the start of the first one); and no closing parenthesis follows an IN list |
| `ParserRoundTrip.ParseTree` | src/api/db.cpp:428-574 | every tree comes back from its tokens with parentheses only where an operand binds looser than its place asks for, and from those with parentheses around every operand: this is precedence and association for all operators |
| `ParserRoundTrip.WriteIsWellFormed` | src/api/db.cpp:428-503 | both ways of writing a tree give every operand the place it needs |
| `ParserRoundTrip.WriteKeepsMeaning` | src/api/db.cpp:505-509 | parentheses change nothing in what a tree means |
| `ParserRoundTrip.ParseGroup` | src/api/db.cpp:401-417 | an expression in parentheses is parsed back if and only if it does not end in a non-empty IN list; otherwise it is refused |
| `ParserRoundTrip.AndBeforeOr` | src/api/db.cpp:429-438 | `a and b or c` is read as `(a and b) or c` |
| `ParserRoundTrip.SumsToTheLeft` | src/api/db.cpp:475-483 | `a - b - c` is read as `(a - b) - c` |
| `ParserRoundTrip.TimesBeforePlus` | src/api/db.cpp:475-492 | `a + b * c` is read as `a + (b * c)` |
| `ParserRoundTrip.NotBeforeEquals` | src/api/db.cpp:439-503 | `not a = b` is read as `(not a) = b` |
| `ParserRoundTrip.ReadsNullTest` | src/api/db.cpp:445-453 | IS NULL and IS NOT NULL are read as the two tests, and told apart |
| `ParserRoundTrip.ReadsCall` | src/api/db.cpp:510-567 | `f(*, n, ?)` is read as a call with these arguments in this order, the number having its decimal value |
| `ParserRoundTrip.ReadsLiterals` | src/api/db.cpp:525-547 | NULL, TRUE, FALSE and strings are read as these literals |
| `Syntax.DigitsOfDecimal` | src/api/db.cpp:515-517 | reading the decimal digits of a number gives the number |
| `Syntax.DigitsExactly` | src/api/db.cpp:515-517 | exactly the runs of digits are numbers, and zeros in front change nothing |
| `ParserRoundTrip.ParseAnything` | src/api/db.cpp:396-574 | on every token list with an end token the parser terminates with its index in bounds |
| `ParserRoundTrip.ParametersInOrder` | src/api/db.cpp:531-538 | the parameters of a parsed expression, read left to right, are numbered consecutively |
| `ParserRoundTrip.OneNumberPerMark` | src/api/db.cpp:531-538 | as many numbers are given out as the tokens have `?` |
| `ParserRoundTrip.InTakesOuterParenthesis` | src/api/db.cpp:460-463 | `(x in (1))` is refused |

## Left out

- File streams, fsync, rename and their failures. The data file is replaced atomically and durably, page writes happen in
  order, and what a crash leaves of the log is on disk. `create_if_missing` is taken as set.
- CrashSafety.EveryRunIsSafe: a commit is a step only while the 64-bit LSN and transaction counters have not run out.
- CrashSafety.AcknowledgedStays: a commit whose snapshot exceeds the record limit fails but stays in memory, as in the code; a later checkpoint may still make it durable, so the lemma speaks of runs in which none has failed since; the same goes for rows that a failed statement leaves.
- Catalog.RefreshKeepsValid: for fewer than 2^53 - 1 tables, because table ids are compared as doubles.
- Transactions.ConstraintsAlwaysHold: under the same bound on the number of tables.
- Durability.RecoveredIsSerial: for runs in which failed autocommit statements leave nothing behind and all tables fit the format; without the one, Transactions.DirtyRunExists, and without the other, CrashSafety.WideTableLost, is an input for which it fails. A transaction that is not under way waits while a commit, checkpoint or close runs.
- Transactions.CleanExactly: statements on user tables; writing to a catalog table or failing to find the table never shows in the user tables.
- Expression evaluation: WHERE clauses and assignments are arbitrary functions of a row that may fail; INSERT takes its rows as evaluated, with targets already resolved to columns.
- BufferPool.BufferPoolManager.Victim: speaks of ages below the largest 64-bit number, which is the starting bound of the scan.
- BufferPool.BufferPoolManager.FetchPage: clients fetch pages they hold or pages outside the file; page 0 and free pages through the pool are not modelled, because a page on the free list is later rewritten behind the cache. UnpinPage beside guards is not modelled either.
- BufferPool.DiskManager.WritePage: promises nothing of the free list after a write to the header page or to a page on the list.
- BufferPool.BufferPoolManager.DeletePage: promises nothing of the pool after a page on the free list was deleted again.
- Pages.HeaderBack: the counters and catalog roots of the header page are kept as uninterpreted bytes.
- Snapshots.TransactionManager.CommitTransaction: handles are the ones the manager gave out, not copies.
- ParserRoundTrip.ParseWritten: a group that ends in a non-empty IN list is not part of these trees, because the code takes its parenthesis; ParserRoundTrip.ParseGroup says that such an expression is refused when it is the whole one, but not what becomes of it deeper in a tree.
- ParserRoundTrip.ParseTree: the writers place parentheses in trees without IN tests; ParserRoundTrip.ParseWritten speaks of trees with them.
- Syntax keeps a REAL literal as its text; conversion to a double and its overflow are not modelled. The tokenizer is not part of this model.
- Floating-point arithmetic and overflow in expressions, ORDER BY, DISTINCT, the COUNT rewrite and result formatting.
- Thread interleavings inside a statement: a statement is one step.
- The files under src/sql, src/planner, src/exec, src/catalog and src/table, the command line and the logger, which would add easy members only.
- `durable_lsn_` is set to whatever LSN Flush is given, so nothing is claimed of its order.
