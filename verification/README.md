# sqlite-sync, verified

A Dafny model of the parts of sqlite-sync that keep replicas together, with proofs.

- **Replica** (`Values`, `ValueOrder`, `Replica`, `Provenance`, `CloudSync`): a table and its `_cloudsync` meta table
  under the causal-length-set algorithm, with the order of values that breaks ties and, entry by entry, whose change an
  entry is. `Replica` gives what each statement and each merge makes of the two tables; the class in `CloudSync`
  executes the triggers and the merge statement by statement and is proved equal to those functions.
- **What replicas agree on** (`Convergence`, `Determinism`, `DeliveryOrder`, `AntiEntropy`, `ExchangeExact`, `KeyChange`):
  any order and repetition of deliveries, the exact conditions under which order, or start and order, do not matter to
  a column, the exchange of whole exports, and what a primary-key change does to the other side.
- **Versions and the send cursor** (`VersionClock`, `SendCursor`): the version clock of a connection beside other
  connections, and a machine in which every network call may fail and other connections commit while it is under way.
- **LZ4** (`Lz4Format`, `Lz4Copy`, `Lz4Count`, `Lz4Greedy`, `Lz4Compress`, `Lz4Gain`, `Lz4Decompress`, `Lz4RoundTrip`):
  the block format byte by byte, the greedy parse and what it finds, the compressor that writes it, the decompressor
  with its overruns, shortcuts and tables, and the round trip.
- **khash** (`Probing`, `KhashFlags`, `Khash`): triangular probing, packed flags, and the table with its in-place rehash,
  as a map over every run.
- **Payloads** (`PkCodec`, `Payload`, `Sync`): the typed value codec, the framed payload, and the way from one replica's
  tables to another's.

The main results are `Convergence.Convergence`, `DeliveryOrder.OrderFreeExactly`, `ExchangeExact.ExchangeAgreesExactly`,
`Replica.HistoryKeepsExactly`, `Provenance.LocalEntriesAreOwn`, `ValueOrder.CompareIsOrder`,
`VersionClock.HandedIsNewExactly`, `SendCursor.NothingIsLost`, `Lz4RoundTrip.RoundTrip`, `Lz4Compress.CompressFast`,
`Lz4Gain.RunSize`, `Lz4Decompress.DecompressSafe`, `Khash.Rehash`, `Khash.Replay`, `PkCodec.RoundTrip`,
`Payload.PayloadOpens` and `Sync.Exchange`. `Wrappers` holds the option type they share.

Where the code does not do what it should for every input, the code is modelled as it is, a lemma names such an input,
and another gives the exact condition:

- a column that only an earlier life of a row wrote depends on the order of delivery
  (`Convergence.UndeterminedColumnDiverges`, `DeliveryOrder.OrderFreeExactly`);
- a key change between values that compare equal, such as texts that differ behind a NUL, moves the row and leaves its
  entries, and OR REPLACE can evict rows unmarked (`Replica.TiedKeyMoves`, `Replica.EvictedRowStays`,
  `Replica.ApplyKeeps`, `Replica.HistoryKeepsExactly`);
- the statements of a merge can be redirected, ignored or reach further because of another UNIQUE constraint or of keys
  that SQL holds equal, while the clocks are set as if not (`Replica.RedirectedUpsert`, `Replica.IgnoredInsert`,
  `Replica.DeletedAlong`, `Convergence.UniqueValuesDiverge`; the condition is again `Replica.ApplyKeeps`);
- a primary-key change onto a live row that has no sentinel can take its columns back
  (`KeyChange.ReplacedRowGoesBack`, `KeyChange.ReplacementGrowsExactly`);
- a connection that reads its version and commits without having handed one out can forget the stored version, and what
  it writes next is never sent (`VersionClock.ReadThenCommitForgets`, `SendCursor.CommitWithoutGuardLoses`,
  `VersionClock.HandedIsNewExactly`, `SendCursor.CommitLosesExactly`);
- room for the payload header is reserved after the buffer size was settled
  (`Payload.FirstRowLimit`, `Payload.PayloadBuffer.BufferCheck`);
- a continued length of 2^32 or more wraps, a zero offset is read as a run of zeros, and the decompressor takes blocks
  that have no meaning (`Lz4Decompress.WrappedBlockIsTaken`, `Lz4Decompress.ZeroOffsetIsTaken`,
  `Lz4Format.MeaningExactly`);
- the decompressor's shortcuts take blocks that break the end-of-block conditions
  (`Lz4Decompress.ShortcutGoesFurther`); what it decodes is still their meaning, and `Lz4Decompress.DecompressSafe`
  says exactly which blocks it takes.

`dafny verify dfyconfig.toml` checks the project.

## Model

| member | source | states |
|---|---|---|
| Values.CompareLaws | src/dbutils.c:212-257 | the comparison is antisymmetric in sign for every pair of SQLite values, and zero exactly on values that look the same to it |
| Values.CompareTransitive | src/dbutils.c:212-257 | the order is transitive over all types, including texts that stop at a NUL and doubles compared by value |
| Values.CanonicalTie | src/dbutils.c:212-257 | two canonical values (no text behind a NUL, no negative zero) that compare equal are the same value |
| ValueOrder.CompareIsOrder | src/dbutils.c:212-257 | the comparison is below zero exactly when the first value is less in an order defined without it: INTEGER over FLOAT over TEXT over BLOB over NULL, and within each type as the rows below say; above zero exactly the other way round |
| ValueOrder.TextsAreOrdered | src/dbutils.c:240-244 | a text compares below another if and only if they agree up to some place with no NUL before it, and there the first has the smaller byte, its end counting as 0 |
| ValueOrder.BlobsAreOrdered | src/dbutils.c:246-253 | a blob compares below another if and only if they agree up to some place, and there the first ends or has the smaller byte |
| ValueOrder.DoublesAreOrdered | src/dbutils.c:231-235 | bit patterns compare as the numbers they stand for, computed from sign, exponent and fraction, with the infinities outside and equal zeros |
| ValueOrder.ExampleDoubles | src/dbutils.c:231-235 | concrete bit patterns are 2^-1074, 1, 1.5 and 2 |
| ValueOrder.ExampleOrder | src/dbutils.c:212-257 | concrete values of every type in their order |
| Replica.KeysTieExactly | src/cloudsync.c:2573-2596 | encoded keys tie exactly when every pair of key values compares equal, and are the same blob exactly when the keys are the same |
| Replica.CanonicalKeysTie | src/cloudsync.c:2573-2581 | keys of canonical values tie only if they are equal |
| Replica.MarkColumnsEffect | src/cloudsync.c:721-727 | what a whole trigger loop of insert-or-bump statements leaves in every entry: named columns one version up or at 1 with the new db_version and this site, all others untouched |
| Replica.MarkColumnsSeq | src/cloudsync.c:721-727 | the columns of one statement get consecutive sequence numbers in their order |
| Replica.NextOddIsLeast | src/cloudsync.c:697-713 | both sentinel statements bring a row back with the least odd causal length above the old one |
| Replica.ChangedColumnsEffect | src/cloudsync.c:2548-2645 | the update trigger marks exactly the columns whose old and new values compare different |
| Replica.InsertKeeps | src/cloudsync.c:2481-2546 | a local insert keeps the row invariant and makes the causal length odd without lowering it |
| Replica.DeleteKeeps | src/cloudsync.c:2647-2690 | a local delete leaves an even sentinel alone in the meta table and raises the causal length by one |
| Replica.MoveInKeeps | src/cloudsync.c:1868-1911 | entries moved to a new primary key leave that row with an odd causal length that is not lower than before |
| Replica.KeyChangeKeeps | src/cloudsync.c:2548-2645 | the row at the new primary key is alive, keeps the invariant, and its causal length does not fall |
| Replica.MergeKeeps | src/cloudsync.c:1425-1495 | merging a well-formed change keeps the row invariant and takes the greater of the two causal lengths |
| Replica.MergeMetaKeeps | src/cloudsync.c:1425-1495 | the entries a merge leaves meet their invariant and take the greater causal length whatever rows of other keys its statements met |
| Replica.ApplyKeeps | src/cloudsync.c:697-769 | an operation keeps the invariant of every row if and only if it loses no row; a row is lost, absent with an odd causal length, by OR REPLACE of another key, by a move to a key that compares equal, by a merged insert that is ignored or goes to another row, or by a merged delete that takes another key's row along |
| Replica.ApplyGrowsCl | src/cloudsync.c:697-769 | no operation lowers any causal length, whatever state it starts from |
| Replica.HistoryKeeps | src/cloudsync.c:2481-2690 | over every history of inserts, updates, key changes, deletes and merges the invariant holds up to the first step that loses a row |
| Replica.HistoryKeepsExactly | src/cloudsync.c:2481-2690 | it holds in every state of a history if and only if no step loses a row |
| Replica.CausalLengthsGrow | src/cloudsync.c:697-769 | over every history, whatever it loses, causal lengths only grow |
| Replica.ParityOfReachable | src/cloudsync.c:1425-1495 | in every state reached without losing a row, a row is in the user's table exactly when its causal length is odd, and an even sentinel stands alone |
| Replica.TiedKeyMoves | src/cloudsync.c:2573-2596 | a concrete key change behind a NUL: the row moves, its entries stay, the old key keeps an odd causal length and the new key has none |
| Replica.EvictedRowStays | src/dbutils.c:594-608 | a concrete INSERT OR REPLACE that evicts a row of another key: no delete trigger runs, and the row's causal length stays odd |
| Replica.RedirectedUpsert | src/cloudsync.c:564-573 | a concrete merge of a row with a UNIQUE value that is taken: the upsert names no conflict target and updates the other row, and the merged key gets an odd causal length and no row |
| Replica.IgnoredInsert | src/cloudsync.c:1324-1354 | a concrete sentinel whose INSERT OR IGNORE inserts nothing and whose clock is set all the same |
| Replica.DeletedAlong | src/cloudsync.c:1168-1211 | a concrete merged delete that takes the row of a key SQL holds equal and leaves that key the causal length of a live row |
| Replica.MergeRowAt | src/cloudsync.c:1369-1496 | a merge that loses no row and sends no column to another row touches the row it names, as specified, and no other |
| Replica.ExportsWellFormed | src/vtab.c:131-163 | every change exported from a reachable replica is well-formed, and its cl is the row's causal length |
| Replica.MergeIdempotent | src/cloudsync.c:1425-1495 | merging the same well-formed change twice is merging it once, whatever rows the second merge could meet |
| Replica.OwnExportIsNeutral | src/vtab.c:131-163 | merging back what a replica exported changes nothing, whatever rows the merge could meet |
| Provenance.InsertedEntries | src/cloudsync.c:2481-2546 | every entry an insert leaves, exactly: columns one version up or at 1, numbered in order, of this site and the version handed out; the sentinel of a row that comes back is this site's, at the next odd version |
| Provenance.DeletedEntries | src/cloudsync.c:2647-2690 | a delete leaves one entry, an even sentinel of this site with the statement's version and number |
| Provenance.UpdatedEntries | src/cloudsync.c:2548-2645 | an update under the same key numbers exactly the columns whose values differ and leaves every other entry |
| Provenance.MovedEntries | src/cloudsync.c:1868-1911 | every entry at the new key of a key change: the sentinel with the second number, what came along at version 1 with what cloudsync_seq() gave, the changed columns after it, and what was there and is not replaced |
| Provenance.DepartedEntries | src/cloudsync.c:2548-2645 | the old key is left with a sentinel of this site that has the statement's first number |
| Provenance.LocalEntriesAreOwn | src/cloudsync.c:697-769 | whatever entry a local statement leaves changed, at any key, has this site, the version handed out and a sequence number of that statement |
| Provenance.MergeWritesNone | src/cloudsync.c:1425-1495 | a change with a smaller causal length, a known sentinel and a column that loses leave every entry of the row |
| Provenance.MergeWritesColumn | src/cloudsync.c:1115-1166 | a column that wins leaves its own entry alone changed, with the change's version, site and number at the version of the merge |
| Provenance.MergeWritesDelete | src/cloudsync.c:1168-1211 | a merged delete leaves the sentinel alone, with the change's site and number |
| Provenance.MergeWritesLife | src/cloudsync.c:1324-1354 | a merged later life: sentinel and column with the change's site and number, every other entry at version 0 with the site and number it had |
| Provenance.GreaterValueWins | src/cloudsync.c:1232-1322 | between columns of one version the greater value, in the order of ValueOrder, is what the row holds afterwards |
| Provenance.ShownValueDecides | src/cloudsync.c:1232-1322 | without a row of its own, a change is compared with the value of the row shown for its key, and is written when there is none |
| Provenance.ExportsExactly | src/vtab.c:131-163 | a change is exported if and only if, field by field, it says what the entry under its key and name says, with the sentinel's version as cl and the row's value |
| Provenance.ExportRestores | src/vtab.c:131-163 | merged into an empty replica at the version it carries, an export restores its entry, the causal length and the value |
| Provenance.InsertAfterMergedDelete | src/cloudsync.c:697-713 | a concrete row deleted elsewhere and inserted here again: both entries in full, the sentinel at version 3 of this site |
| Provenance.ExportedBack | src/vtab.c:131-163 | the two changes that this row exports, and no other |
| Provenance.LifeFromElsewhere | src/cloudsync.c:1213-1230 | a concrete later life from elsewhere: the sentinel changes its site, the column goes to version 0 and keeps its own |
| Provenance.GreaterTextIsWritten | src/cloudsync.c:1232-1322 | "b" merged over "a" of the same version is written, with its clock |
| Provenance.SmallerTextIsNot | src/cloudsync.c:1232-1322 | "a" merged over "b" of the same version changes nothing |
| Convergence.LeqLaws | src/cloudsync.c:1232-1322 | the order merge decides by (column version, then value) is total, transitive and antisymmetric up to what the comparison sees |
| Convergence.MergeColumn | src/cloudsync.c:1425-1495 | what one merge does to one column, case by case: kept, dropped, zeroed, replaced by the greater clocked value |
| Convergence.DeliverCl | src/cloudsync.c:1369-1496 | any sequence of deliveries ends each row at the greatest causal length it was told of, whatever rows its merges lose or redirect |
| Convergence.DeliverKeepsExactly | src/cloudsync.c:1369-1496 | a delivery keeps the invariant after each of its merges if and only if none of them loses a row |
| Convergence.DeliverColumn | src/cloudsync.c:1232-1322 | what any delivery leaves in a column dominates every contender of the winning life and is one of them, the old value of that life, or a zeroed remnant |
| Convergence.Convergence | src/cloudsync.c:1369-1496 | two deliveries of the same set of changes, in any order and repetition, from the same state: equal causal lengths always; equal presence if no merge loses a row; and, if no merge meets another uniqueness constraint, agreement of every column that has a change of its own in the winning life |
| Convergence.ConvergedRowsIdentical | src/cloudsync.c:1369-1496 | if every column has such a change and values are canonical, the two rows hold the same values |
| Convergence.UndeterminedColumnDiverges | src/cloudsync.c:1213-1230 | a concrete pair of changes whose order shows in a column that only an earlier life wrote |
| Convergence.UniqueValuesDiverge | test/main.c:165-168 | two rows with the same UNIQUE value, delivered in the two orders: each order keeps the first row and never creates the second |
| Determinism.FixedExactly | src/cloudsync.c:1369-1496 | from any start before the winning life and in any order that meets no other uniqueness constraint, a column ends the same if and only if the row ends dead, or in its first life, or the column has a change of its own in the winning life, or that life wrote only this column, or it holds the greatest value there is; this is about start and order together |
| DeliveryOrder.DeliverTraced | src/cloudsync.c:1213-1230 | the value a delivery leaves is that of a change of the winning life or of one of the candidates: the old value, a change of the present life above it, or a change of a life in between |
| DeliveryOrder.OrderFreeExactly | src/cloudsync.c:1369-1496 | from one state, every two deliveries of the same changes that meet no other uniqueness constraint agree on a column if and only if the row ends dead or in the life it is in, or the winning life writes the column with its own version, or writes only it, or its changes to the column cover every candidate, or it has none and no candidate differs from what was there, with no delete in between |
| DeliveryOrder.DeterminedIsOrderFree | src/cloudsync.c:1369-1496 | the guard of the convergence theorem is one of those cases |
| AntiEntropy.ExportCl | src/vtab.c:131-163 | an export tells of each row its causal length and nothing else |
| AntiEntropy.ExportContends | src/vtab.c:131-163 | what an export brings to a column is exactly the column's own clocked value |
| AntiEntropy.ExchangeConverges | src/vtab.c:131-163 | two replicas that merge each other's exports, in any order, agree on causal length; on presence if no merge loses a row; and on every column the winning side carries if no merge meets another uniqueness constraint |
| ExchangeExact.ExchangeAgreesExactly | src/vtab.c:131-163 | they agree on a column in every order that meets no other uniqueness constraint if and only if the side ahead in an odd life shows it with a version of its own, or nothing greater stands against it, or it is all there is to the row, or neither side shows it |
| KeyChange.StepGrows | src/cloudsync.c:2548-2690 | unless a key change replaces a live row without a sentinel, every statement and merge that loses no row and sends no column to another row moves every column of every row forward |
| KeyChange.ReplacementGrowsExactly | src/cloudsync.c:733-739 | in that one case a column moves forward if and only if it had no entry, or (no entry came with the move) the statement changed its value or the value replaced is not greater, or (one came) its old version is below 1, or 2 if the value changed, or just that with a value not greater |
| KeyChange.ReplacedRowGoesBack | src/cloudsync.c:733-739 | a concrete key change that takes a column back to version 1 in the same life |
| KeyChange.CatchUp | src/cloudsync.c:1425-1495 | a replica behind in a row that the exporter holds alive takes over every column the exporter holds with a version of its own, when no merge meets another uniqueness constraint |
| KeyChange.KeyChangePropagates | docs/PriKey.md:9-20 | after a key change to an unused key and one delivery that meets no other uniqueness constraint, a replica that was not ahead has lost the old row and holds the new one with its values |
| CloudSync.Replica.constructor | src/cloudsync.c:697-769 | a new replica is empty and meets the invariant |
| CloudSync.Replica.CloudsyncInsert | src/cloudsync.c:2481-2546 | the insert trigger leaves exactly the specified meta entries for its row and none changed elsewhere |
| CloudSync.Replica.CloudsyncDelete | src/cloudsync.c:2647-2690 | the delete trigger bumps the sentinel and drops the other entries, of its row only |
| CloudSync.Replica.MoveKey | src/cloudsync.c:2548-2645 | the key-change part of the update trigger: the old key dies, its entries arrive at the new one, no other row changes, and two sequence numbers are used |
| CloudSync.Replica.MarkChanged | src/cloudsync.c:2548-2645 | the update trigger marks the changed columns, in order, one sequence number each |
| CloudSync.Replica.Insert | src/cloudsync.c:2481-2546 | the whole INSERT (OR REPLACE) statement with its triggers equals the specification on both tables, and leaves the invariant exactly if it loses no row |
| CloudSync.Replica.PrikeyChanged | src/cloudsync.c:2573-2581 | the loop over the key values finds a change exactly when the keys do not tie |
| CloudSync.Replica.Delete | src/cloudsync.c:2647-2690 | the whole DELETE statement with its trigger equals the specification on both tables |
| CloudSync.Replica.Update | src/cloudsync.c:2548-2645 | the whole UPDATE (OR REPLACE) statement on key tuples, key change or not, equals the specification on both tables, and leaves the invariant exactly if it loses no row |
| CloudSync.Replica.MergeSentinelOnlyInsert | src/cloudsync.c:1324-1354 | resurrection inserts the bare row unless it is there or the insert is ignored, zeroes its clocks and sets the sentinel either way |
| CloudSync.Replica.MergeDelete | src/cloudsync.c:1168-1211 | a merged delete removes the row, and the rows SQL takes along, without firing the trigger and leaves the sentinel alone |
| CloudSync.Replica.UpsertColumn | src/cloudsync.c:564-573 | the upsert writes the column of the row it hits, or of a new row under the merged key when it hits none |
| CloudSync.Replica.MergeInsertCol | src/cloudsync.c:1115-1166 | whichever row the column is written to, the merged key takes the change's clock |
| CloudSync.Replica.MergeDidCidWin | src/cloudsync.c:1232-1322 | against a column the row shows, the change wins exactly when it is above it in the total order of convergence; it wins over a column without an entry, and over one whose value is missing unless that has the higher version |
| CloudSync.Replica.MergeInsert | src/cloudsync.c:1369-1496 | merging one change, statement by statement and with the rows its statements meet, equals the specification on both tables, and leaves the invariant exactly if it loses no row |
| VersionClock.Connection.DbVersionCheckUptodate | src/cloudsync.c:415-424 | afterwards the cached version is not behind the file if and only if the cache was unset, out of date, or not behind before |
| VersionClock.Connection.DbVersionNext | src/cloudsync.c:426-436 | the version handed out is above everything stored if and only if the cache was fresh, or what is pending or merged is above it |
| VersionClock.Connection.CommitHook | src/cloudsync.c:1577-1585 | a commit leaves a cache that may be used if and only if what was pending was unset, not behind, or will be read again |
| VersionClock.Connection.RollbackHook | src/cloudsync.c:1587-1592 | a rollback keeps a good clock good, and the next version then depends on the cache alone |
| VersionClock.HandedExactly | src/cloudsync.c:426-436 | a handed-out version exceeds everything committed if and only if one of its three sources does, and is never below what is pending or merged |
| VersionClock.NextIdempotent | src/cloudsync.c:426-436 | asking again in the same transaction gives the same version |
| VersionClock.CommitExactly | src/cloudsync.c:1577-1585 | after a commit the cache may be believed, and the next version handed out is new, if and only if the commit met its guard |
| VersionClock.ReadExactly | src/cloudsync.c:415-424 | a plain read keeps the clock good, and a commit right after it meets its guard if and only if nothing is pending or what is pending is not behind |
| VersionClock.HistoryGood | src/cloudsync.c:415-436 | over every run of reads, nexts, commits, rollbacks and other connections' commits the clock stays good as long as each commit met its guard; reads are free |
| VersionClock.HandedIsNew | src/cloudsync.c:426-436 | in every such run a version handed out exceeds every version anyone committed earlier and is not below what is pending |
| VersionClock.HandedIsNewExactly | src/cloudsync.c:1577-1585 | over every run a local statement would at all times be handed a new version if and only if every commit met its guard |
| VersionClock.PendingGrows | src/cloudsync.c:426-436 | within one transaction handed-out versions never decrease |
| VersionClock.ReadThenCommitForgets | src/cloudsync.c:1577-1585 | a fresh connection that only reads the version and commits hands out 1 next, below what is stored; if it writes in between it goes on at 11 and 12 |
| SendCursor.ApplyStamps | src/cloudsync.c:697-769 | every operation stamps every entry it touches with the version it was handed |
| SendCursor.LocalIsOwn | src/cloudsync.c:697-769 | every entry a local statement changes is an own one in the sense of the send query |
| SendCursor.LocalIsSelected | src/network.c:690-761 | once committed, every entry a local statement changed is one that the next send query selects |
| SendCursor.EventKeeps | src/network.c:690-761 | every event keeps the machine's invariant: statements, reads, commits that meet their guard, other connections' commits also between the send query and its end, failed and successful sends |
| SendCursor.NothingIsLost | src/network.c:690-761 | over every history each own change is in a notified payload or lexicographically above the stored cursor |
| SendCursor.SentOnlyOnce | src/network.c:690-761 | nothing that a send query selected is above the cursor it leaves, so it is not sent again |
| SendCursor.CommitWithoutGuardLoses | src/cloudsync.c:1577-1585 | a concrete run with a commit that does not meet its guard, after which an own row is below the cursor and in no payload |
| SendCursor.NextRowIsLostExactly | src/cloudsync.c:1577-1585 | after any commit, guarded or not, the next new row is lost once committed if and only if the version handed out with its first sequence number is not above the cursor |
| SendCursor.CommitLosesExactly | src/cloudsync.c:1577-1585 | a commit has a next row that is lost if and only if the version handed out after it is not above the cursor's; and its guard holds if and only if that version is above everything stored |
| SendCursor.Sender.SendChanges | src/network.c:690-761 | whatever other connections commit meanwhile, the stored cursor moves only after address, upload and notification all succeeded, and then to what the query found |
| PkCodec.NBytesMinimal | src/pk.c:234-243 | the byte count is the least n in 1..8 whose 8n-1 bits hold the value |
| PkCodec.ExampleBytes | src/pk.c:298-355 | concrete values fix the type codes, the place of the byte count and the byte order |
| PkCodec.ExampleDoubles | src/pk.c:331-339 | concrete doubles: 1.0 and -1.0 have different types and the same 8 bytes, high byte first, and -0.0 has the type of 1.0 |
| PkCodec.ExampleIntegers | src/pk.c:318-330 | concrete negative integers of 2 and 8 bytes |
| PkCodec.ExampleKey | src/pk.c:361-363 | a key blob is its number of columns and then their values in order |
| PkCodec.MagnitudeRoundTrip | src/pk.c:286-291 | an integer or length prefix is read back from wherever it was written |
| PkCodec.IntegerRoundTrip | src/pk.c:298-355 | every 64-bit integer, INT64_MIN and negatives included, survives |
| PkCodec.DoubleRoundTrip | src/pk.c:298-355 | every double bit pattern that is a number survives, -0.0 included |
| PkCodec.RoundTrip | src/pk.c:174-224 | decoding an encoded tuple gives the same typed values and consumes exactly the bytes written |
| PkCodec.PrikeyRoundTrip | src/pk.c:226-230 | a key blob with up to 255 columns decodes to its key |
| PkCodec.PrikeyInjective | src/pk.c:361-363 | two keys have the same blob if and only if they are the same key |
| PkCodec.EncodePrefixFree | src/pk.c:298-355 | no encoded tuple is a proper prefix of another of the same width, so rows can be concatenated |
| PkCodec.PkEncodeInt64 | src/pk.c:286-291 | the shift loop writes exactly the big-endian bytes and nothing else in the buffer |
| PkCodec.EncodeInto | src/pk.c:298-355 | the encoding loop writes exactly the encoded tuple at its place |
| PkCodec.PkEncodeSize | src/pk.c:245-279 | the size is exact for every tuple: reserved bytes plus what the encoder writes |
| PkCodec.PkEncodePrikey | src/pk.c:298-363 | the key goes into the caller's buffer if and only if it fits, else into a new one, with the same bytes |
| PkCodec.PkDecodeInt64 | src/pk.c:147-157 | the shift loop reads the signed big-endian integer |
| PkCodec.PkDecodeValue | src/pk.c:179-222 | one turn of the loop, with its byte loops for integers, doubles and lengths, reads what the specification says |
| PkCodec.PkDecode | src/pk.c:174-224 | the decoding loop reads exactly the tuple the recursive specification does |
| Lz4Format.ParseSerialize | src/lz4.c:1976-2068 | reading a written block gives the block back, with lengths summed in 32 bits or without bound |
| Lz4Format.ReadingsAgree | src/lz4.c:1708-1728 | the 32-bit sums read a block as the format means it if and only if no continued length reaches 2^32 or the block is malformed either way |
| Lz4Format.ShortBlocksFit | src/lz4.c:1708-1728 | no block of fewer than 16843011 bytes has such a length |
| Lz4Format.WrappedBlockDiffers | src/lz4.c:1976-1983 | a concrete block of 16843026 bytes whose length wraps to that of its 15 literals, and which the format gives no meaning |
| Lz4Format.ZeroOffsetDiffers | src/lz4.c:2122-2131 | a concrete block with a zero offset, decoded as a run of zero bytes and without a meaning in the format |
| Lz4Format.MeaningExactly | src/lz4.c:1976-2068 | what a block decodes to is what the format means if and only if no length reaches 2^32 and no offset is zero |
| Lz4Format.ExampleBlock | src/lz4.c:1976-2068 | a concrete block fixes the nibble order, the offset's byte order and the least match length |
| Lz4Format.ExampleLengths | src/lz4.c:1708-1728 | concrete lengths around 15, 15 + 255 and 15 + 2*255: nibbles, continuation bytes, and how they are summed again |
| Lz4Format.ConformantIsStrict | src/lz4.c:217-218 | a block that meets the end-of-block conditions is taken by the general path with any buffer its contents fit |
| Lz4Format.StrictHasMeaning | src/lz4.c:1944-2165 | what the general path takes decodes to something that fits |
| Lz4Format.AssembleConformant | src/lz4.c:217-218 | the end-of-block conditions of a list of sequences only concern the last one |
| Lz4Copy.PeriodicIsCopy | src/lz4.c:436-506 | a stretch that repeats with the offset as its period is the byte-by-byte match copy |
| Lz4Copy.BlockExtends | src/lz4.c:436-470 | a block copy from a whole number of periods back, and at least its own size, keeps the period |
| Lz4Copy.TablesAreExact | src/lz4.c:417-418 | for every offset below 8 the two tables leave distances that are multiples of the offset, at least 4 and at least 8 |
| Lz4Copy.WildCopy8 | src/lz4.c:406-415 | 8-byte block copies continue an overlapping match exactly, up to their overrun |
| Lz4Copy.WildCopy32 | src/lz4.c:459-470 | 32-byte block copies continue a match from at least 16 bytes back exactly |
| Lz4Copy.BegunIsCopied | src/lz4.c:436-457 | a stretch that goes on repeating the first bytes of a match is the byte-by-byte copy, and at offset zero a run of zeros |
| Lz4Copy.CopyFirst8 | src/lz4.c:2122-2135 | the first 8 bytes of any match, overlapping or not, begin the byte-by-byte copy; at offset zero they are zeros |
| Lz4Copy.MemcpyUsingOffset | src/lz4.c:472-506 | the fast loop's copy with its patterns for offsets 1, 2 and 4 is the byte-by-byte copy, and a run of zeros at offset zero |
| Lz4Decompress.ReadVariableLength | src/lz4.c:1708-1728 | a continued length is the sum of its bytes modulo 2^32, or an error exactly when the input ends too early |
| Lz4Decompress.SafeLiteralCopy | src/lz4.c:1985-2052 | literals are copied, end the block, or are refused exactly as the general path says |
| Lz4Decompress.MatchCopy | src/lz4.c:2071-2165 | a match is copied byte for byte, near the end of the buffer too, and at offset zero becomes zeros |
| Lz4Decompress.TokenStage | src/lz4.c:1944-1983 | the two-stage shortcut keeps the same output as the general path |
| Lz4Decompress.FastLoop | src/lz4.c:1797-1924 | the fast loop keeps what the general path would have decoded |
| Lz4Decompress.MainLoop | src/lz4.c:1944-2165 | the safe loop ends with the whole block decoded or with a block the general path refuses |
| Lz4Decompress.StrictIsAccepted | src/lz4.c:1797-2052 | both loops with their shortcuts take every block the general path takes |
| Lz4Decompress.DecompressSafe | src/lz4.c:2170-2176 | for every input: a non-negative result is the size of what the block decodes to, which the buffer then holds, and which is what the format means if and only if no length reaches 2^32 and no offset is zero; the result is non-negative if and only if the block passes, sequence by sequence, the checks the two loops still make; with an empty buffer only the byte 0 is taken |
| Lz4Decompress.WrappedBlockIsTaken | src/lz4.c:1976-1983 | the wrapped block is decoded to 15 bytes |
| Lz4Decompress.ZeroOffsetIsTaken | src/lz4.c:2122-2131 | the block with the zero offset is decoded to 11 bytes, 5 of them zeros |
| Lz4Decompress.ShortcutGoesFurther | src/lz4.c:1944-1974 | an 18-byte block that breaks the end-of-block conditions and is still taken by the shortcut, with its right meaning |
| Lz4Count.CommonPrefixIs | src/lz4.c:601-626 | the common prefix is the one length whose bytes agree and that cannot be extended |
| Lz4Count.AgreeingBytes | src/lz4.c:601-626 | the zero low bytes of the difference of two words are the bytes on which they agree |
| Lz4Count.NbCommonBytesCounts | src/lz4.c:530-532 | mask and multiply count the zero low bytes of every non-zero word |
| Lz4Count.CompareWords | src/lz4.c:606-621 | one word of comparison tells 8 equal bytes or the place of the first difference |
| Lz4Count.Lz4Count | src/lz4.c:601-626 | the word loop and the 4, 2 and 1 byte tail return exactly the common prefix up to the limit |
| Lz4Count.CountTail | src/lz4.c:622-625 | the tail finishes the count for at most 7 remaining bytes |
| Lz4Greedy.FirstHitHits | src/lz4.c:954-1015 | a search that ends with a match ends at a place whose table entry is before it, at most 65535 bytes back, with the same 4 bytes |
| Lz4Greedy.FirstHitIsFirst | src/lz4.c:954-1015 | no earlier place it looked at is such a match, and a search without one has none among all it looked at |
| Lz4Greedy.BackedAgrees | src/lz4.c:1017-1019 | moving back keeps the bytes equal |
| Lz4Greedy.BackedStops | src/lz4.c:1017-1019 | and ends only where they differ, at the last sequence, or at the start of the input |
| Lz4Greedy.MatchesOk | src/lz4.c:1064-1197 | whatever the table holds, a match and all that follows it are a parse of the input that starts with that match |
| Lz4Greedy.BytesAreBlock | src/lz4.c:851-1240 | for every hash and acceleration the bytes of the greedy parse are a conformant block of the input |
| Lz4Compress.FindMatch | src/lz4.c:954-1015 | the search ends at the first match there is, its table as specified; without one, no place it looked at was a match |
| Lz4Compress.TestNext | src/lz4.c:1145-1197 | both positions are put into the table, and the position right after a match is taken exactly if it is one |
| Lz4Compress.CatchUp | src/lz4.c:1017-1019 | the match is moved back exactly as far as the bytes agree, and not past the last sequence or the start |
| Lz4Compress.WriteMatchExtension | src/lz4.c:1123-1133 | the 4-byte writes leave exactly the continuation of the length |
| Lz4Compress.EncodeLiterals | src/lz4.c:1021-1046 | token, length and literals are written exactly; without a limit it never fails, and with one exactly when its test says so |
| Lz4Compress.SequenceShrinks | src/lz4.h:171-171 | a sequence never outgrows the input it stands for by more than one byte in 255 |
| Lz4Compress.MatchCode | src/lz4.c:1091-1095 | the match is as long as it can be without the last 5 bytes |
| Lz4Compress.EncodeMatch | src/lz4.c:1064-1136 | offset and length complete exactly one sequence of the format, inside the buffer, overruns included, and fail exactly when a limit leaves no room for 6 more bytes |
| Lz4Greedy.ProgressStep | src/lz4.c:930-1200 | one more sequence: what is written so far decodes to the input before the anchor |
| Lz4Greedy.ProgressEnds | src/lz4.c:1204-1231 | with the last literals the output is a conformant block of the whole input |
| Lz4Compress.EncodeSequence | src/lz4.c:1064-1140 | the match of a sequence is at least as long as the search saw, and takes progress and size bound one sequence further |
| Lz4Compress.EncodeMatches | src/lz4.c:1048-1197 | a match and all that follow without literals are written as the greedy parse has them; giving up means that the whole does not fit the limit |
| Lz4Compress.EncodeFound | src/lz4.c:930-1200 | the main loop writes exactly the sequences of the greedy parse, or the whole does not fit the limit |
| Lz4Compress.EncodeLastLiterals | src/lz4.c:1204-1231 | the last literals end the block within n + n/255 + 2, or within the limit, and fail exactly when they do not fit it |
| Lz4Compress.CompressValidated | src/lz4.c:851-1240 | the output is exactly the bytes of the greedy parse, and nothing is returned exactly when these do not fit the limit; all writes inside n + n/255 + 16 or inside the limit |
| Lz4Compress.CompressGeneric | src/lz4.c:1246-1281 | too large gives 0, empty gives the byte 0, anything else the above |
| Lz4Compress.CompressFast | src/lz4.c:1284-1305 | for a supported input the result is the size of the greedy parse and the output holds it if it fits, and 0 otherwise; with an output of the bound's size it always fits, below n + n/255 + 3; a result above 0 is a block of the input |
| Lz4Compress.CompressDefault | src/lz4.c:1373-1376 | the same at acceleration 1 |
| Lz4Gain.RunIsFound | src/lz4.c:954-1015 | for every hash and acceleration, n >= 13 equal bytes are one literal, one match at offset 1 and the last 5 bytes |
| Lz4Gain.RunSize | src/lz4.c:851-1240 | which take 10 + (n + 230)/255 bytes |
| Lz4Gain.CompressRun | src/lz4.c:1373-1376 | so much is what compressing n equal bytes returns, whatever the hash function |
| Lz4Gain.TwoRunsAreFound | src/lz4.c:930-1200 | two runs of different bytes are two such matches, the second found by a new search one byte into its run |
| Lz4Gain.NoRepeatIsLiteral | src/lz4.c:954-1015 | an input in which no 4 bytes come again within 65535 bytes is one run of literals |
| Lz4Gain.StepsGrow | src/lz4.c:961-971 | a search goes through 66 positions one by one and then in steps of 2; another acceleration takes longer steps from the second on |
| Lz4Gain.FoundAroundEnd | src/lz4.c:1142-1143 | after a match the position 2 before its end is in the table, and is found again |
| Lz4Gain.ExampleFound | src/lz4.c:930-1200 | a concrete input in full: ten positions passed, a match at offset 10, another right behind it without literals, and a search that ends at the input |
| Lz4Gain.ExampleBytes | src/lz4.c:1021-1136 | and the bytes of its block |
| Lz4RoundTrip.BlockDecodes | src/lz4.c:217-218 | a block of an input has that input as its meaning in the format, and is taken by the general path |
| Lz4RoundTrip.RoundTrip | src/lz4.c:1373-1376 | for every input up to the maximal size, every hash function and acceleration, decompressing the compressor's output gives the size and the bytes of the input |
| Lz4RoundTrip.LimitedRoundTrip | src/lz4.c:1246-1281 | with any smaller output the compressor either gives nothing or a block that decompresses to the input within the limit |
| Probing.Kroundup32RoundsUp | src/khash.h:175-177 | on 32-bit words the bit smear gives the least power of two that is at least x, and 0 where there is none |
| Probing.RoundUpIsLeast | src/khash.h:175-177 | the rounded size is the least power of two |
| Probing.RoundUpAround | src/khash.h:311-315 | asking for one bucket less gives the same size, for one more the double |
| Probing.ProbesDiffer | src/khash.h:232-241 | the first n triangular probes of a table of n = 2^k look at n different slots |
| Probing.FirstReturn | src/khash.h:232-241 | the probe is back at its start after 2n - 1 steps and not before |
| Probing.ProbesCover | src/khash.h:232-241 | every slot is looked at within the first n probes |
| KhashFlags.OneSlot | src/khash.h:165-171 | changing the two bits of one slot in its word changes no other slot |
| KhashFlags.SetDeleted | src/khash.h:171-171 | a live slot becomes a tombstone, all others stay |
| KhashFlags.SetNotEmpty | src/khash.h:169-169 | an empty slot becomes live, all others stay |
| KhashFlags.SetLive | src/khash.h:170-170 | any slot becomes live, all others stay |
| KhashFlags.ClearFlags | src/khash.h:226-226 | filling with 0xaa makes every slot empty |
| Khash.EmptyAhead | src/khash.h:230-243 | with fewer occupied slots than buckets the probe of any hash meets an empty slot before it is back at its start, so the exit for a full circle is never taken |
| Khash.UpperBoundRounds | src/khash.h:303-303 | the load bound is 0.77 of the buckets to the nearest integer |
| Khash.NotThere | src/khash.h:230-243 | a probe that runs into an empty slot has shown that the key is not there |
| Khash.Insert | src/khash.h:319-347 | taking a slot on the path of a missing key keeps every key reachable |
| Khash.Remove | src/khash.h:349-355 | a tombstone keeps every other key reachable |
| Khash.Put | src/khash.h:278-291 | one kick-out step of the rehash: the entry in flight lands, what it drives out is in flight next, nothing is lost or doubled |
| Khash.KickOut | src/khash.h:277-292 | the kick-out loop ends because live old slots fall, with nothing in flight and the count of entries kept |
| Khash.Rehash | src/khash.h:268-294 | the in-place rehash ends with the same map, every key where its new probe finds it |
| Khash.Locate | src/khash.h:319-335 | a new key goes to the last tombstone before the first empty slot, or to that slot if there is none; a known key to its own |
| Khash.HashTable.constructor | src/khash.h:212-214 | a new table is the empty map |
| Khash.HashTable.Get | src/khash.h:230-243 | the slot of the key if the map has it, the end otherwise |
| Khash.HashTable.SetValue | src/utils.c:348-353 | assigning through a slot updates that key in the map |
| Khash.HashTable.Del | src/khash.h:349-355 | the key of a live slot leaves the map; any other slot changes nothing |
| Khash.HashTable.Clear | src/khash.h:223-229 | the map is empty, the buckets stay |
| Khash.HashTable.Resize | src/khash.h:244-306 | expand, same size or shrink: the map stays the same, tombstones are gone, and a request too small is refused exactly when the size reaches its bound |
| Khash.HashTable.MakeRoom | src/khash.h:310-318 | before an insertion there is room below the bound and the map is unchanged; at the bound, tombstones are cleared in a table with less than half of its slots live, and any other is doubled, to 4 at first |
| Khash.HashTable.Take | src/khash.h:336-347 | the return code tells an empty slot, a tombstone or a present key, and the map gains exactly the key |
| Khash.HashTable.Put | src/khash.h:307-348 | never a second slot for a key; the map gains the key or stays the same |
| Khash.Replay | src/khash.h:223-355 | over every run of operations the table holds exactly the map, and a lookup finds exactly what the map has |
| Payload.HeaderRoundTrip | src/cloudsync.c:1941-1957 | the 32 bytes in network order read back to the same header |
| Payload.HeaderLayout | src/cloudsync.c:218-227 | where each header field is, with the signature CLSY and the versions first and every number high byte first |
| Payload.RowsTakeBytes | src/cloudsync.c:1959-1982 | every row takes at least a byte, so the row count fits its field |
| Payload.RowsRoundTrip | src/cloudsync.c:2165-2185 | concatenated rows come apart again, in order, whatever stands before and after them |
| Payload.PayloadBuffer.constructor | src/cloudsync.c:203-209 | no rows |
| Payload.PayloadBuffer.BufferCheck | src/cloudsync.c:1924-1939 | what is stored stays, and the next row fits if and only if it is not the first or is no longer than the first allocation less the header |
| Payload.FirstRowLimit | src/cloudsync.c:1924-1939 | a concrete first row that is one byte too long for the buffer, and that all shorter ones fit |
| Payload.PayloadBuffer.EncodeStep | src/cloudsync.c:1959-1982 | the row is appended to the rows the buffer holds |
| Payload.Pack | src/cloudsync.c:2003-2022 | the block of the compressor with the size of the rows exactly when there is one that is not longer than them, and otherwise the rows themselves with size 0 |
| Payload.RunIsPacked | src/cloudsync.c:2003-2022 | rows of n >= 13 equal bytes travel as 10 + (n + 230)/255 bytes |
| Payload.PayloadBuffer.EncodeFinal | src/cloudsync.c:1984-2033 | no rows give no payload; otherwise a payload of exactly these rows, compressed exactly when that is possible and not longer |
| Payload.Apply | src/cloudsync.c:2098-2188 | for every blob: each outcome has exactly its condition, in the order of the checks, announced sizes the allocator refuses included, and a payload that passes them gives exactly the rows its body stands for |
| Payload.PayloadOpens | src/cloudsync.c:2098-2188 | applying what was built from a list of rows gives these rows in order, compressed or not, and an expanded size of 0 marks the uncompressed case |
| Sync.TupleRoundTrip | src/cloudsync.c:1380-1415 | a change read back from its nine columns is the same change |
| Sync.EncodedRow | src/vtab.c:131-163 | the bytes of a row are the encodings of table, key, column, value, column version, db_version, site, causal length and sequence number, in this order |
| Sync.ExampleRow | src/vtab.c:131-163 | the bytes of one change whose nine values all differ |
| Sync.ReadRow | src/cloudsync.c:1380-1415 | which of its nine values an inserted row gives to which field, a NULL column name being the sentinel |
| Sync.Pack | src/network.c:703-709 | the aggregate over all exported changes is a payload of exactly their rows |
| Sync.Unpack | src/cloudsync.c:2155-2188 | applying it yields the same changes in the same order |
| Sync.Ship | src/network.c:703-709 | from exported changes to merged changes nothing is lost, added or reordered |
| Sync.Exchange | src/vtab.c:131-163 | two replicas that send each other payloads of everything they export end, row by row, in the agreement of the exchange theorem, under its hypotheses |

## Left out

- The SQLite engine, SQL text and quoting, prepared statements and trigger creation: each statement is given its effect on the two tables.
- One synchronised table stands for all; a payload's table name is carried along but every change is to this table.
- The hypotheses of the replica model: the CLS algorithm, `merge_equal_values` off (nothing in the modelled files sets it), the table enabled, at least one non-key column where a theorem speaks of columns, column names distinct and different from the sentinel, values stored as given without type affinity.
- GOS, DWS and AWS tables, the site-id tie-break, row-level-security filtering and apply callbacks; where the export shows the restricted marker the theorems ask that no stored value is that text.
- The sequence numbers that `cloudsync_seq()` gives moved entries are an input (`moveSeq`): their order inside the UPDATE is SQLite's choice.
- The ordinal table of site ids: an entry carries the site id itself.
- 64-bit overflow of versions, causal lengths and sequence numbers; the cursor settings, which the code reads as 32-bit ints, are integers.
- NaN: SQLite stores it as NULL, and so does the decoder here. A text compares up to its first NUL and -0.0 equals 0.0, as in the code; the identity theorem asks for canonical values.
- Replica.ParityOfReachable: states reached without losing a row, because otherwise it is false; Replica.TiedKeyMoves, Replica.EvictedRowStays, Replica.RedirectedUpsert, Replica.IgnoredInsert and Replica.DeletedAlong are inputs and Replica.HistoryKeepsExactly the exact condition.
- Which rows of other keys a statement meets, through another UNIQUE constraint, a key SQL holds equal or a cascade, is SQLite's doing and an input (`evicted`, `met`). A local statement that SQLite refuses for such a constraint is not refused here, and a merge that one of its statements aborts with an error is not a step.
- Convergence.Convergence: says nothing of columns without a change in the winning life, which need not agree (Convergence.UndeterminedColumnDiverges; DeliveryOrder.OrderFreeExactly is the exact condition), nor of presence when a merge loses a row (Convergence.UniqueValuesDiverge).
- AntiEntropy.ExchangeConverges: the columns the winning side carries; ExchangeExact.ExchangeAgreesExactly is the exact condition.
- VersionClock.HandedIsNew: runs whose commits meet their guard, because without it the property is false (VersionClock.ReadThenCommitForgets, VersionClock.HandedIsNewExactly).
- SendCursor.NothingIsLost: commits meet their guard (SendCursor.CommitWithoutGuardLoses shows why, and SendCursor.CommitLosesExactly when one without it loses the next row), a send starts between transactions, every stored row is visible to the export, and no other connection to the same file sends at the same time.
- PkCodec.PkDecode: where the C code would read past its buffer or take a negative length the result is None.
- Lz4Decompress.DecompressSafe: a negative capacity, which the C signature allows and no caller here passes.
- LZ4 dictionaries, streaming, partial decoding, destSize, the pointer table of 32-bit builds, and the hardware bit scan in place of the multiplication.
- The LZ4 hash is any function into the table; a table reused by a fast reset is not modelled, since the callers here start from a cleared one.
- khash allocation failure and tables near 2^31 buckets; the 0.77 double arithmetic is an integer floor, the hash mask a remainder by the power of two, and the rounded size a natural number beside the word-level lemma.
- Khash.HashTable.Put: the value at a new key is whatever the slot held, as in the code; the caller assigns it.
- Payload.PayloadBuffer.EncodeStep: asks that the first row leaves room for the header, which is the exact condition of Payload.PayloadBuffer.BufferCheck; a tuple has at least one and fewer than 65536 values.
- Payload.Apply: stops at the decoded rows; the receive cursor it stores afterwards is left out.
- Sync.Exchange: the changes fit 64-bit integers and SQLite's length limits, and each payload fits a signed 32-bit size.
- Alter, cleanup, logout, schema hashes (a known set here), settings tables, savepoints, endpoints, authentication, libcurl, the memory debugger, UUIDs: they set the stage for the parts modelled, and no property here rests on what they do.
