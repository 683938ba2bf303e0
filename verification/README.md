# Verification model of the database

The modules follow the layers of the original, bottom up.

| file | layer |
|---|---|
| `bytes.dfy`, `keycode.dfy`, `mvcckey.dfy` | byte order, the order-preserving key codec, the keys of the transaction layer |
| `engine.dfy`, `disk.dfy` | the storage engine interface with its prefix bounds, the in-memory engine, the append-only log engine |
| `state.dfy`, `runs.dfy`, `snapshot.dfy`, `txnhistory.dfy` | the transaction layer as a step system, its invariants over every run, the snapshot-isolation store it refines, and its answers told by the steps before them |
| `represent.dfy`, `backend.dfy`, `mvcc.dfy`, `conformance.dfy` | the transaction methods on encoded keys and serialized values, in memory or in a log file, proved against the step system, and whole runs of them |
| `ast.dfy`, `parser.dfy`, `grammar.dfy`, `join.dfy`, `pairs.dfy` | SQL values, precedence climbing and conditions with the grammar they accept, joins, the right-join rewrite, and which pairs of rows joins yield |
| `tablekey.dfy`, `tables.dfy`, `history.dfy` | row and index keys, rows and indexes over runs of operations, and the rows told by the operations alone |
| `access.dfy`, `filters.dfy`, `order.dfy`, `kv.dfy`, `separate.dfy` | planning of WHERE clauses, which rows a filter keeps, the table layer on an ordered byte map, many tables in one store |
| `layout.dfy` | the bytes that keys, records and values are written as |

Each transaction method holds the engine lock from beginning to end, so a run is any interleaving of whole calls by any
number of transactions. `Runs` describes such a run on logical keys; `SnapshotStore` describes what a user may expect: a
committed map, a snapshot per transaction, its own writes over it, all writes applied at commit and none at rollback, and a
conflict exactly when a key was written by a transaction that was running at the start or began later and has not been rolled
back. `SnapshotStore.RefinesSnapshotIsolation` says that every run gives the same answers in both,
`TxnHistory.AnswersExactly` says which answers these are by the steps and answers before them alone, and
`Conformance.Execute` that the byte-level methods give them, on the in-memory engine as on the log engine, whose file may be
closed and opened again or compacted between any two calls.

What the code does differently from what one might expect is kept and stated, with a run that shows it and the exact
condition under which it does no harm:

* deleting a row, giving it another primary key, or dropping its table never shortens the stored index sets
  (`Tables.DeleteLeavesStaleEntries`). What the index lists after a run is `Tables.IndexListsExactly`, and an index scan can
  return a row that does not match (`AccessPaths.StaleEntryIsReturned`, exactly when in `AccessPaths.IndexPathExact`);
* index and key lookups are structural, filters are not: constants that are computed are floats, so `WHERE b = 2 + 3` on an
  integer index finds nothing (`AccessPaths.FloatMissesInteger`, exactly when in `AccessPaths.FloatsMissIntegers`), and a
  float without a fraction is looked up as an integer key, which a FLOAT key never is (`AccessPaths.FloatKeyIsMissed`) and
  which beyond the limits is the last integer (`AccessPaths.LargeFloatFindsLargestKey`; exactly when in
  `AccessPaths.KeyPathExact` and `AccessPaths.KeyPathForFloats`);
* integer keys are ordered by their two's complement, so a scan returns negative ones last (`Layouts.RowOrderIs`, for every
  pair of keys);
* a column compared with a column is planned as a search for NULL, which misses rows on the primary key
  (`AccessPaths.EqualColumnsAreMissed`, `AccessPaths.KeyAgainstColumnExact`) and returns wrong ones on an index
  (`AccessPaths.NullsAreReturned`, `AccessPaths.IndexAgainstColumnExact`);
* the hash join pairs NULLs and tells 1 from 1.0, the nested loop does neither (`Joins.NullsPartTheJoins`,
  `Joins.OnePartsTheJoins`, exactly when in `Joins.InnerJoinsAgreeExactly` and `Joins.OuterJoinsAgreeExactly`);
* changing a primary key deletes the old row before the new one is checked, so inside an explicit transaction a failed
  update loses the row (`AccessPaths.RowIsLost`, exactly when in `Tables.UpdateFailsExactly`, over runs in
  `Tables.FailedUpdateLosesRow`); a statement outside one is rolled back (src/sql/engine/mod.rs:139-151);
* an update in place is not checked against the column types (`AccessPaths.UpdateIsUnchecked`, exactly when all rows stay
  admitted in `Tables.KeepsAdmittedExactly`);
* row and index keys have no terminators: a row prefix covers the rows of every table whose name extends it, and index keys
  see only the concatenation of table and column (`TableKeys.RowPrefixExact`, `TableKeys.KeysCoincideExactly`). So a scan
  returns, and a drop deletes, rows of other tables (`Separation.ForeignRowIsReadAndDropped`), and an index scan finds rows
  by the entries of another table (`Separation.ForeignEntryIsFound`). When tables can disturb each other is
  `Separation.DisturbsExactly`, when a scan returns the table's own rows `KvTables.ScanIsExact`; in a store of tables that
  cannot, each is after any run what its own operations leave it with (`Separation.RunTables`).

Assumptions: a transaction handle is not used after commit or rollback; the version counter stays below its largest value;
log records fit the lengths of their headers; the target of a compaction starts empty.

## Model

| member | source | states |
|---|---|---|
| `KeyCode.Serializer.SerializeBytes` | src/storage/keycode.rs:98-110 | the escaping loop appends the terminated form of the bytes to what was written |
| `KeyCode.Serializer.SerializeU64` | src/storage/keycode.rs:75-78 | appends eight big-endian bytes |
| `KeyCode.Deserializer.NextBytes` | src/storage/keycode.rs:271-287 | unescapes up to the terminator, leaves what follows, and fails on bad or missing terminators |
| `KeyCode.Deserializer.TakeBytes` | src/storage/keycode.rs:265-269 | takes exactly that many bytes, or shows the slice out of bounds |
| `KeyCode.ReadEscapedExact` | src/storage/keycode.rs:271-287 | reading succeeds exactly on an escaped, terminated string followed by a rest, and returns that string and that rest |
| `KeyCode.TerminatedOrder` | src/storage/keycode.rs:98-110 | different strings compare, in terminated form and whatever follows, as they do raw |
| `KeyCode.BigEndianOrder` | src/storage/keycode.rs:75-78 | big-endian bytes compare as the numbers |
| `KeyCode.EscapedPrefix` | src/storage/mvcc.rs:212-214 | an escaped prefix without terminator matches exactly the strings with that raw prefix |
| `MvccKeys.EncodeKey` | src/storage/keycode.rs:131-139 | the derived enum code writes the tag and then each field |
| `MvccKeys.DecodeKey` | src/storage/keycode.rs:535-542 | decoding returns the key read off the front, or the reason it cannot |
| `MvccKeys.DecodeExact` | src/storage/mvcc.rs:60-77 | decoding yields a key and a rest exactly when the input is that key's encoding followed by that rest |
| `MvccKeys.RoundTrip` | src/storage/mvcc.rs:60-77 | every key decodes back from its encoding, leaving nothing |
| `MvccKeys.PrefixFree` | src/storage/mvcc.rs:60-77 | no encoding is a prefix of another key's |
| `MvccKeys.OrderPreserved` | src/storage/mvcc.rs:60-77 | encodings compare as kind, then fields: versions of keys as (key, version) pairs |
| `MvccKeys.VersionRangeExact` | src/storage/mvcc.rs:187-189 | the bytes between two versions of a key hold exactly that key's versions in between |
| `MvccKeys.PrefixExact` | src/storage/mvcc.rs:79-91 | an encoding starts with an encoded prefix exactly when the key is of the kind and version the prefix names |
| `MvccKeys.TruncatedPrefixExact` | src/storage/mvcc.rs:212-214 | a version prefix without its terminator matches exactly the versions of keys with that raw prefix |
| `ByteOrder.LessIs` | src/storage/memory.rs:20-43 | the order of keys: a proper prefix first, otherwise by the first byte that differs |
| `Layouts.MvccKeyBytes` | src/storage/keycode.rs:581-622 | a tag, the version in eight bytes, the key with its terminator |
| `Layouts.EscapedBytes` | src/storage/keycode.rs:98-110 | a zero byte is followed by 255 and the string by two zeros |
| `Layouts.LogRecordBytes` | src/storage/disk.rs:182-199 | key length, value length or -1 for a tombstone, key, value |
| `Layouts.ValueBytes` | src/storage/mvcc.rs:274-286 | a written value is its length and its bytes behind a 1, a deletion a 0 |
| `Layouts.CounterBytes` | src/storage/mvcc.rs:102-105 | the version counter in eight little-endian bytes |
| `Layouts.TableKeyBytes` | src/sql/engine/kv.rs:304-316 | a tag, the name without a terminator, and the key of a row |
| `Layouts.IndexKeyBytes` | src/sql/engine/kv.rs:304-316 | a tag, both names without terminators, and the value |
| `Layouts.TableValueBytes` | src/storage/keycode.rs:33-110 | a value is the tag of its kind and its bytes |
| `Layouts.RowOrderIs` | src/sql/engine/kv.rs:120-126 | rows are scanned false before true, text by its bytes, integers in ascending order with the negative ones last |
| `StorageEngine.PrefixRange` | src/storage/engine.rs:19-34 | the bound built by carrying over 255 contains exactly the strings with the prefix, and never makes the range panic |
| `StorageEngine.PrefixRangeExact` | src/storage/engine.rs:19-34 | the same for every prefix: empty, trailing 255s, all 255s |
| `StorageEngine.RangeItemsAre` | src/storage/memory.rs:36-43 | a scan yields exactly the entries in range, in strictly ascending key order |
| `StorageEngine.MemoryEngine.ScanPrefix` | src/storage/engine.rs:19-34 | yields the entries whose key starts with the prefix, and no others |
| `Runs.ReachableInv` | src/storage/mvcc.rs:93-310 | after every run: versions are numbered below the counter, records of unfinished transactions match their versions, active sets nest, and no version was written while an older writer of the key was running |
| `Runs.StepKeeps` | src/storage/mvcc.rs:93-310 | every step keeps these invariants and the link between live transactions and their markers |
| `Runs.ConflictCheckExact` | src/storage/mvcc.rs:244-274 | the check of only the newest version from the smallest concurrent one finds a conflict exactly when some stored version of the key is invisible |
| `Runs.WriteRefusedExactly` | src/storage/mvcc.rs:244-289 | after every run a write is refused exactly when an invisible version of its key is stored, and then changes nothing |
| `Runs.WritersNeverOverlap` | src/storage/mvcc.rs:51-57 | in every reachable state the writers of two versions of one key were never concurrent, and the older has finished |
| `Runs.AtMostOneLiveWriter` | src/storage/mvcc.rs:244-289 | in every reachable state at most one unfinished transaction has a version of a key, and all others are older |
| `Runs.LiveVersionIsLast` | src/storage/mvcc.rs:244-289 | an unfinished transaction's version of a key is the highest one |
| `Runs.RepeatableReads` | src/storage/mvcc.rs:184-241 | no steps of other transactions change what a running transaction reads or scans |
| `Runs.RollbackErases` | src/storage/mvcc.rs:145-174 | after a rollback no entry of the transaction is left and every other entry is as it was |
| `Runs.RollbackIsUnseen` | src/storage/mvcc.rs:145-174 | running transactions read as before the rollback, and one begun right after it as one begun right before it would have |
| `MvccState.ScanAgreesWithGet` | src/storage/mvcc.rs:210-241 | a key is in the view a scan returns with a value exactly when it has the prefix and a read returns that value |
| `MvccState.RowsAreSorted` | src/storage/mvcc.rs:233-240 | scan results are sorted by key, without duplicates, and are the pairs of the view |
| `MvccState.LookupNewest` | src/storage/mvcc.rs:184-208 | a read returns the value of the newest visible version |
| `SnapshotStore.ViewIsRead` | src/storage/mvcc.rs:184-241 | a transaction's reads and scans are those of one ordered map, its snapshot under its own writes |
| `SnapshotStore.ViewIsWritten` | src/storage/mvcc.rs:176-182 | a write sets or removes one key of that map, which starts as the snapshot |
| `SnapshotStore.SameConflict` | src/storage/mvcc.rs:244-274 | an invisible version exists exactly when the abstract store counts the key as written concurrently |
| `SnapshotStore.CommitApplies` | src/storage/mvcc.rs:124-143 | dropping a transaction's marker adds exactly its writes to the committed map |
| `SnapshotStore.StepMatches` | src/storage/mvcc.rs:93-289 | every step keeps the database and the abstract store in correspondence and gives equal answers |
| `SnapshotStore.RefinesSnapshotIsolation` | src/storage/mvcc.rs:93-310 | any run is possible in the one exactly when it is in the other, and all its answers are equal |
| `TxnHistory.AnswersExactly` | src/storage/mvcc.rs:93-310 | a run is legal and gives these answers exactly when each step is one of a running transaction, each read returns the last value the transaction wrote itself, or else the value of the last commit before it began, each scan all of these by key, and each write is refused just if an unfinished other transaction has written the key or one that had has committed since |
| `Representation.LatestIsLookup` | src/storage/mvcc.rs:190-206 | the first visible version met from the back of a scanned range is what a read should find |
| `Representation.LastScanned` | src/storage/mvcc.rs:255-262 | the last entry of the scanned range is the newest version of the key if that lies in the range |
| `Mvcc.Transaction.Begin` | src/storage/mvcc.rs:93-117 | takes the counter as version, the active set from the markers, and writes counter and marker |
| `Mvcc.Transaction.ScanActive` | src/storage/mvcc.rs:292-310 | the versions under the marker prefix are exactly the active transactions |
| `Mvcc.Transaction.Commit` | src/storage/mvcc.rs:124-143 | removes exactly the transaction's records and marker |
| `Mvcc.Transaction.Rollback` | src/storage/mvcc.rs:145-174 | removes exactly the recorded versions, the records and the marker |
| `Mvcc.Transaction.Get` | src/storage/mvcc.rs:184-208 | returns the value of the newest visible version, if that is not a deletion |
| `Mvcc.Transaction.ScanPrefix` | src/storage/mvcc.rs:210-241 | returns the visible key/value pairs under the raw prefix, in key order |
| `Mvcc.Transaction.WriteInner` | src/storage/mvcc.rs:244-289 | refuses on a conflict and changes nothing, or else writes the record and the version |
| `Conformance.Perform` | src/storage/mvcc.rs:93-310 | one call on the byte engine is one step of the system with the same answer |
| `Conformance.Execute` | src/storage/mvcc.rs:93-310 | a whole run of calls on an empty engine, in memory or in a log file that is reopened and compacted in between at will, returns what the snapshot-isolation store returns and what the steps before make one expect |
| `Backends.Backend.Scan` | src/storage/engine.rs:5-34 | a scan of either engine yields the stored values in range, in key order |
| `Backends.Backend.Reopen` | src/storage/disk.rs:24-28 | closing a log file and opening it again keeps everything stored |
| `Backends.SerializeRoundTrip` | src/storage/mvcc.rs:97-112 | markers, counters and values are read back from the bytes they are written as |
| `LogEngine.Log.WriteEntry` | src/storage/disk.rs:182-199 | appends the encoded record and returns where it starts and how long it is |
| `LogEngine.Log.ReadEntry` | src/storage/disk.rs:209-223 | reads header and key at an offset, and fails past the end |
| `LogEngine.Log.BuildKeydir` | src/storage/disk.rs:153-180 | replaying a file of whole records never fails and builds the index those records determine |
| `LogEngine.KeydirLocates` | src/storage/disk.rs:153-207 | after any number of records the index knows exactly the live keys, and its offsets point at the last value set |
| `LogEngine.ReadsBack` | src/storage/disk.rs:182-223 | a written record is read back from its offset, whatever surrounds it |
| `LogEngine.DiskEngine.Open` | src/storage/disk.rs:24-28 | opening replays the file into the index |
| `LogEngine.DiskEngine.Set` | src/storage/disk.rs:67-73 | sets one key of the contents; the index stays what replay would build |
| `LogEngine.DiskEngine.Get` | src/storage/disk.rs:75-82 | reads the contents through the index and never past the end of the file |
| `LogEngine.DiskEngine.Delete` | src/storage/disk.rs:84-88 | removes one key of the contents; the index stays what replay would build |
| `LogEngine.DiskEngine.Scan` | src/storage/disk.rs:90-125 | yields what the in-memory engine yields on the same contents |
| `LogEngine.DiskEngine.Compact` | src/storage/disk.rs:36-61 | keeps the contents and the agreement of index and replay; the new file is as long as its live records and never longer than the old one |
| `LogEngine.CompactedLog` | src/storage/disk.rs:36-61 | one record per live key replays to the same map, in exactly the live size, and no log with that meaning is shorter |
| `LogEngine.FileDeterminesRecords` | src/storage/disk.rs:153-180 | a file of whole records can be split into records in one way only |
| `LogEngine.DiskEngine.ScanPrefix` | src/storage/engine.rs:19-34 | yields the entries whose key starts with the prefix, like the in-memory engine |
| `LogEngine.RunLog` | src/storage/disk.rs:24-125 | any run of sets, deletes, reads, scans, reopenings and compactions gives the answers of an ordered map and leaves the contents of that map |
| `LogEngine.LastSetIsFound` | src/storage/disk.rs:67-88 | after any run of operations a key has the value it was set to last, unless it was deleted since |
| `LogEngine.RunMemory` | src/storage/memory.rs:20-43 | the in-memory engine gives the same answers to the same run, so no client can tell the engines, or a reopening, apart |
| `Parsing.Parser.ParseExpression` | src/sql/parser/mod.rs:441-478 | takes one operand off the tokens: constant, field, function call or parenthesized expression |
| `Parsing.Parser.ComputeMathOperator` | src/sql/parser/mod.rs:481-501 | the climbing loop computes what `Climb` does, which `Grammar.SumsAreParsed` describes, and leaves the same tokens |
| `Parsing.Parser.ParseOperationExpr` | src/sql/parser/mod.rs:177-194 | a condition is an operand, a comparison sign and arithmetic, which `Grammar.ConditionsAreParsed` describes |
| `Grammar.SumsAreParsed` | src/sql/parser/mod.rs:481-501 | arithmetic is accepted exactly if it is a sum of products of factors, to its last token, and computed from left to right, products first |
| `Grammar.ThreeNumbers` | src/sql/parser/lexer.rs:50-87 | of `a x b y c` the right-hand side is computed first just if it alone is a product or quotient |
| `Grammar.ConditionsAreParsed` | src/sql/parser/mod.rs:177-194 | a condition is accepted exactly if it is a factor, `=`, `>` or `<`, and a sum, and compares what these stand for |
| `Grammar.WorthIsSimple` | src/sql/parser/mod.rs:441-501 | so its operands are columns, constants or functions |
| `Parsing.ParsesExactlyTrees` | src/sql/parser/mod.rs:481-501 | parsing succeeds exactly on printed trees that respect precedence and group to the left, consumes exactly their tokens and returns their value, provided the rest could not continue them |
| `Parsing.PrintThenParse` | src/sql/parser/mod.rs:441-501 | every arithmetic tree, printed with only the needed parentheses, is parsed completely to its value |
| `Parsing.ParenthesizedIsGrammatical` | src/sql/parser/lexer.rs:43-58 | putting parentheses around exactly the looser subtrees gives a tree the grammar accepts and keeps its value |
| `Joins.NestedLoopJoin` | src/sql/executor/join.rs:37-96 | with a predicate: fails exactly when it is bad on some pair, otherwise the naive join by it, whose rows are those of `JoinPairs.JoinByIs`; without one: all pairs as in `JoinPairs.CrossIsProduct`, and every left row padded as well if outer |
| `JoinPairs.JoinByIs` | src/sql/executor/join.rs:57-84 | the naive join yields each matching pair once, and if outer each left row without a match with NULLs, in the order of the left rows and then of the right ones |
| `JoinPairs.CrossIsProduct` | src/sql/executor/join.rs:70-74 | a cross join of m and n rows has m * n rows, the (i * n + j)-th being the i-th left and the j-th right one |
| `JoinPairs.Join` | src/sql/plan/planner.rs:160-197 | any of the four joins on two columns, parsed, planned and executed: exactly the pairs of equal values, the unmatched rows of the left table for a left join and of the right one for a right join, or all pairs |
| `JoinPairs.OtherConditions` | src/sql/executor/join.rs:187-204 | other join conditions fail, or panic if they are equalities |
| `Joins.HashJoin` | src/sql/executor/join.rs:121-184 | the naive join by structural equality of the two columns, inner or left outer, row for row; fails or panics where the code does |
| `Joins.BuildJoinMap` | src/sql/executor/join.rs:145-150 | the map lists for each value exactly the right rows holding it, in order |
| `Joins.AgreeableJoins` | src/sql/executor/join.rs:37-184 | when structural and SQL equality agree on all pairs of values, both joins yield the same rows, inner or outer |
| `Joins.InnerJoinsAgreeExactly` | src/sql/executor/join.rs:37-184 | for inner joins that condition is also necessary |
| `Joins.OneTypeIsAgreeable` | src/sql/parser/ast.rs:165-185 | columns of one non-null, non-float type meet the condition |
| `Joins.NullsPartTheJoins` | src/sql/executor/join.rs:145-173 | two NULLs are joined by the hash join and not by the nested loop |
| `Joins.OnePartsTheJoins` | src/sql/executor/join.rs:145-173 | 1 and 1.0 are joined by the nested loop and not by the hash join |
| `Joins.OuterJoinsAgreeExactly` | src/sql/executor/join.rs:37-184 | outer joins agree exactly when each left value other than NULL is agreeable with every right value, and for a left NULL the only right row with NULL, if any, is all NULLs |
| `Joins.SegmentsDecide` | src/sql/executor/join.rs:158-173 | outer joins are equal exactly when every left row yields the same rows in both |
| `Joins.OuterJoinsMayAgreeAnyway` | src/sql/executor/join.rs:158-173 | a NULL row joined with itself: the outer joins agree, the inner ones do not |
| `Joins.RightJoinRewrite` | src/sql/plan/planner.rs:169-194 | a right join as parsed, planned and executed: it fails exactly on a missing column, and otherwise yields, columns moved back, the matches and each unmatched right row padded with NULLs, as a multiset |
| `Joins.ExchangedIsRight` | src/sql/plan/planner.rs:169-194 | the same for any match relation |
| `Joins.PositionIsFirst` | src/sql/executor/join.rs:141-157 | of columns with one name the first is meant |
| `TableKeys.EncodeKey` | src/sql/engine/kv.rs:304-316 | the derived enum code writes the tag and then each field |
| `TableKeys.KeysCoincideExactly` | src/sql/engine/kv.rs:304-316 | two keys are written alike exactly when they are of one kind with equal values and equal names, for index entries equal concatenated names |
| `TableKeys.RowPrefixExact` | src/sql/engine/kv.rs:318-327 | a row prefix matches exactly the rows of tables whose name extends it |
| `Tables.Validate` | src/sql/schema.rs:17-64 | accepts exactly the tables with one primary key, not nullable, and defaults that are NULL or of the column's type |
| `RowHistory.ValidatedExactly` | src/sql/schema.rs:17-66 | the same by cases on the defaults |
| `RowHistory.AdmittedExactly` | src/sql/engine/kv.rs:72-89 | a row is admitted exactly when each value is NULL in a nullable column or has the column's type |
| `RowHistory.CreateSucceedsExactly` | src/sql/engine/kv.rs:69-99 | a creation succeeds exactly on an admitted row with a new key, and changes nothing otherwise |
| `RowHistory.RowIsPutLast` | src/sql/engine/kv.rs:69-301 | after any run the row under an id is the last one successfully created or updated under it, and there is none if it was taken away since or never put |
| `RowHistory.OpRows` | src/sql/engine/kv.rs:69-301 | one operation stores the row it puts, removes the one it takes away, and leaves the rows of all other ids |
| `Tables.EnteredAt` | src/sql/engine/kv.rs:105-115 | creating a row adds its id to the set of each of its indexed values and to no other |
| `Tables.MovedAt` | src/sql/engine/kv.rs:186-207 | updating in place moves the id from the old value's set to the new value's in each changed column |
| `Tables.RunKeeps` | src/sql/engine/kv.rs:69-301 | after any run of row operations and re-creations, failed ones included, rows lie under their own key of the declared type and are listed under all their indexed values; where no row was taken away the index lists nothing else |
| `Tables.OpKeeps` | src/sql/engine/kv.rs:69-301 | each operation keeps these facts |
| `Tables.DeleteLeavesStaleEntries` | src/sql/engine/kv.rs:216-234 | a deletion keeps the index precise exactly when the row is missing or nothing is indexed |
| `Tables.IndexListsExactly` | src/sql/engine/kv.rs:105-301 | after any run the index lists an id under a value exactly when its row holds the value, or was taken away holding it, with its table even, and has not been moved off it by an update in place since |
| `Tables.UpdateFailsExactly` | src/sql/engine/kv.rs:176-183 | an update fails exactly when it changes the key to one that is taken or the row to one that does not fit; the old row is then gone |
| `Tables.FailedUpdateLosesRow` | src/sql/engine/kv.rs:176-183 | in any run within one transaction, a failed update loses the row and leaves its id listed under every value it held |
| `Tables.KeepsAdmittedExactly` | src/sql/engine/kv.rs:186-213 | an operation keeps all rows fitting their columns exactly when it is not an update in place to a row that does not fit |
| `Tables.RunAdmits` | src/sql/engine/kv.rs:69-214 | if no update in place does that, all rows after a run fit, and so do all values left behind |
| `AccessPaths.PlanOfFilter` | src/sql/plan/planner.rs:199-251 | a filter read as a field and a value is planned by key, by index or as a full scan, according to the column |
| `AccessPaths.ComparisonsAreFiltered` | src/sql/plan/planner.rs:231-251 | after any run, without a filter or with `>`, `<` or a function as the filter, the plan returns what filtering the table returns |
| `AccessPaths.ConstantFirstIsFiltered` | src/sql/plan/planner.rs:231-251 | so it does with a constant on the left of an equality |
| `AccessPaths.SearchPanics` | src/sql/plan/planner.rs:239-243 | an equality with a function or comparison on either side panics |
| `AccessPaths.WholeFloatIsInteger` | src/sql/executor/query.rs:96-101 | a whole float is looked up as that integer, or the nearest limit, anything else as it is |
| `Filters.GreaterThanKeeps` | src/sql/parser/ast.rs:186-205 | `column > constant` keeps a row by cases on the two values: NULL never, false before true, integers widened beside floats, text by its bytes, an error for other types |
| `Filters.LessThanKeeps` | src/sql/parser/ast.rs:206-225 | the same for `column < constant` |
| `Filters.EqualKeeps` | src/sql/parser/ast.rs:166-185 | the same for `column = constant` |
| `Filters.UnreadableFails` | src/sql/parser/ast.rs:146-164 | a comparison with a function or an unknown column is an error |
| `AccessPaths.PathExact` | src/sql/executor/query.rs:57-111 | rows read by ids are the rows a filter keeps exactly when the filter decides each row by its id |
| `AccessPaths.KeyPathExact` | src/sql/executor/query.rs:92-111 | after any run, for every constant and key type: the key path returns what the filter keeps exactly when the constant fits the keys |
| `AccessPaths.KeyPathForFloats` | src/sql/executor/query.rs:96-101 | on an integer key whose ids are widened exactly it does, for any float constant, if and only if that is in range, has a fraction, or is clamped to an id that is not there |
| `AccessPaths.LargeFloatFindsLargestKey` | src/sql/executor/query.rs:96-101 | a run after which 2^64 finds the row with the largest integer as its key, which the filter drops |
| `AccessPaths.FloatKeyIsMissed` | src/sql/executor/query.rs:96-101 | a run after which 2.0 does not find the row with the FLOAT key 2.0, which the filter keeps |
| `AccessPaths.KeyPathOfAnyRun` | src/sql/plan/planner.rs:199-227 | after any run, for constants of the key's type, not FLOAT, the plan returns what filtering returns |
| `AccessPaths.IndexPathExact` | src/sql/executor/query.rs:57-79 | after any run, for every constant: the index path returns what the filter keeps exactly when every row compares with the constant and equals it just if it holds it or has left it behind |
| `AccessPaths.IndexPathMissesExactly` | src/sql/executor/query.rs:57-79 | after any run the index path returns every row the filter keeps exactly when every row equal to the constant holds it or has left it behind |
| `AccessPaths.IndexPathMissesNothing` | src/sql/executor/query.rs:57-79 | so it does when neither the constant nor the column is a float |
| `AccessPaths.IndexPathOfUndeleted` | src/sql/executor/query.rs:57-79 | without deletions it returns exactly the kept rows if and only if every row compares with the constant and equals it just if it holds it |
| `AccessPaths.IndexPathOfChecked` | src/sql/executor/query.rs:57-79 | with deletions, rows that fit and a constant of the column's type: if and only if no row that left the constant behind holds another value |
| `AccessPaths.FloatsMissIntegers` | src/sql/executor/query.rs:57-79 | on an indexed column that holds only integers and NULLs, a float constant finds the rows that have left that float behind, which is right exactly when those are the rows that equal it |
| `AccessPaths.FloatsFindNothing` | src/sql/executor/query.rs:57-79 | on an INTEGER column that is nothing if updates in place fit, which is right exactly when no row equals the constant |
| `AccessPaths.StaleEntryIsReturned` | src/sql/engine/kv.rs:226-301 | create, delete or drop the table, and create again: the old value still finds the new row |
| `AccessPaths.FloatMissesInteger` | src/sql/parser/lexer.rs:61-79 | a computed constant misses the row with the integer it equals |
| `AccessPaths.RowIsLost` | src/sql/engine/kv.rs:176-183 | a run within one transaction in which a refused update leaves the table empty |
| `AccessPaths.UpdateIsUnchecked` | src/sql/engine/kv.rs:186-213 | a run after which an integer column holds text |
| `AccessPaths.KeyAgainstColumnExact` | src/sql/plan/planner.rs:231-251 | key = column is planned as a search that finds nothing, which is right exactly when in every row the two compare and differ |
| `AccessPaths.IndexAgainstColumnExact` | src/sql/plan/planner.rs:231-251 | indexed = column finds the rows with NULL or that left NULL behind, which is right exactly when no row has NULL, the two always compare, and they are equal just in rows that left NULL behind |
| `AccessPaths.EqualColumnsAreMissed` | src/sql/plan/planner.rs:231-251 | a run after which key = column keeps a row and finds none |
| `AccessPaths.NullsAreReturned` | src/sql/plan/planner.rs:231-251 | a run after which indexed = column keeps no row and finds one |
| `KvTables.KvTransaction.CreateRow` | src/sql/engine/kv.rs:69-118 | fails without the table; succeeds exactly on a row that fits and has a new key; the store then holds the row and its entries, and other keys are as they were |
| `KvTables.KvTransaction.UpdateRow` | src/sql/engine/kv.rs:176-214 | in place, or by deletion and creation when the key changes, in which case a failure leaves the deletion; which rows that leaves is `RowHistory.RowIsPutLast` |
| `KvTables.KvTransaction.DeleteRow` | src/sql/engine/kv.rs:216-234 | removes the row and leaves every index set as it was |
| `KvTables.KvTransaction.LoadIndex` | src/sql/engine/kv.rs:248-261 | the stored set, or the empty one |
| `KvTables.KvTransaction.SaveIndex` | src/sql/engine/kv.rs:263-276 | stores the set, or removes the entry when it is empty |
| `KvTables.KvTransaction.ReadById` | src/sql/engine/kv.rs:278-286 | the stored row, if there is one |
| `KvTables.KvTransaction.ScanTable` | src/sql/engine/kv.rs:120-146 | fails without the table, otherwise exactly when the filter is bad on some row under the row prefix, otherwise the rows there that it keeps; where only the table's rows are there, the rows of the table it keeps, once each, in key order |
| `KvTables.ScanIsExact` | src/sql/engine/kv.rs:124-141 | reading the whole table returns its rows, once each, exactly when nothing else lies under its prefix |
| `ValueOrder.SortedIds` | src/sql/executor/query.rs:61-65 | the ids of an index set, each once, in strictly ascending order of `partial_cmp` |
| `ValueOrder.ComesFirst` | src/sql/types/mod.rs:64-77 | which of two values comes first, by cases: NULL, false before true, smaller numbers, text by its bytes |
| `KvTables.KvTransaction.IndexScan` | src/sql/executor/query.rs:57-79 | the live rows listed under the value, once each, in ascending order of their primary keys |
| `KvTables.KvTransaction.PrimaryKeyScan` | src/sql/executor/query.rs:92-111 | the row whose key the constant stands for, if there is one |
| `KvTables.KvTransaction.Select` | src/sql/plan/planner.rs:199-229 | planning a filter and executing the plan returns the rows of that plan, for a full scan, which any `>` or `<` leads to, whatever it keeps of what lies under the prefix; an error without the table |
| `KvTables.KvTransaction.CreateTable` | src/sql/engine/kv.rs:148-165 | succeeds exactly on a valid table with a new name, and then stores its schema and changes nothing else |
| `KvTables.KvTransaction.DropTable` | src/sql/engine/kv.rs:288-301 | removes the schema and every key under the row prefix, and nothing else |
| `KvTables.KvTransaction.RunRowOps` | src/sql/engine/kv.rs:69-301 | a run of operations leaves the store with the table the run describes and every key it does not write as it was |
| `KvTables.ScanReadsRows` | src/sql/engine/kv.rs:124-126 | where nothing else is there, the prefix scan of a table reads its rows, all of them, once each |
| `Separation.DisturbsExactly` | src/sql/engine/kv.rs:304-327 | some key that operations on a table write is read for another exactly when the other's name begins the one's, or the one is dropped and its name begins the other's, or index entries of two indexed columns coincide |
| `Separation.OtherTablesKept` | src/sql/engine/kv.rs:69-301 | operations on a table leave the rows and index of any other as they were unless entries coincide or the other is dropped along, and what a scan of it reads unless its name begins the table's |
| `Separation.DropEmptiesExtensions` | src/sql/engine/kv.rs:288-301 | dropping a table empties exactly the tables whose names extend its own, and leaves all index entries |
| `Separation.SharedIndex` | src/sql/engine/kv.rs:248-276 | two columns whose entries coincide have one index between them |
| `Separation.RunTables` | src/sql/engine/kv.rs:69-301 | from an empty store, tables that cannot disturb each other are after any interleaving of operations what their own operations leave them with |
| `Separation.ForeignRowIsReadAndDropped` | src/sql/engine/kv.rs:120-146 | a run on tables t and tx after which `SELECT * FROM t` returns a row of tx, and `DROP TABLE t` deletes it |
| `Separation.ForeignEntryIsFound` | src/sql/engine/kv.rs:248-261 | a run on tables u and us after which an index scan of us finds a row by an entry of u, which the filter drops |

## Left out

- bincode values of the table layer are taken as decoded (`Record`); those of the transaction layer are written out.
- A reopening leaves the handles of unfinished transactions as they are; in the original they are lost, which is a run that does not use them again.
- Mutex poisoning and thread scheduling: every method is one atomic step.
- Use of a handle after commit or rollback, and a version counter that has reached its largest value.
- The error branches for unexpected keys in the transaction layer: its scans never return such keys.
- The table layer works on its transaction's own view of the store, an ordered map by `SnapshotStore.ViewIsRead` and `SnapshotStore.ViewIsWritten`; a write conflict in the middle of a row operation is not modelled there.
- File locks, renames, I/O errors, torn or corrupt logs, and records too long for their headers.
- Compaction opens its target without truncating it; the target is taken to be empty.
- Floats are the real numbers that their bits give back (`TableKeys.Machine`): no NaN, negative zero or rounding; reading number literals, widening and the four operations are parameters.
- Rows with fewer values than columns, on which the original panics.
- Creating a dropped table again with other columns.
- Padding of inserted rows with defaults, and the remaining parts of the planner.
- Aggregation, sorting, limits, projection, plan printing and the rest of statement parsing.
- Filters pushed into both sides of a join.
