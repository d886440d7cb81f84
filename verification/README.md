# Verified models of MuduDB's adapters and tools

Dafny models of the parts of MuduDB whose correctness is hard to see by reading one function:

- **Format migration** (`MigrationGraph`, `VersionSearch`, `Router`): the router plans a shortest chain of
  registered upgrades and rollbacks by breadth-first search and runs it. Plans are shortest, symmetric
  and monotone, a migration is exactly the outcome of its handlers' calls, and it keeps the meaning of a
  payload if every handler does.
- **The local file system behind an object** (`EntryPath`, `HostLayout`, `LocalFs`, `LocalFsRuns`,
  `LocalFsPositions`, `LocalFsListing`, `LocalFsTable`): path normalisation, the host layout and the
  descriptor table. `LocalFs` is the state machine, `LocalFsTable` the calls as written, proved equal to it,
  and `LocalFsRuns` what holds over whole runs: isolation of objects, contents as last writes, and when the
  tracked length is right. `LocalFsPositions` says where calls read and write and when an open succeeds, and
  `LocalFsListing` derives what an object's listing shows from the run.
- **Relation calls on SQLite** (`Restock`, `RelationSql`, `RelationStore`, `RelationMeaning`, `RelationAny`):
  relation calls are compiled to numbered-parameter SQL. What they store and refuse is what the caller's
  attributes, datums and delta codes ask for, column by column (`RelationMeaning`), and over every run
  the table behaves as a map from key to row: exactly for calls by primary key (`RelationStore`), and within
  what the map allows for any call (`RelationAny`). The engine's arithmetic and the value decoder are arbitrary.
- **The client session manager** (`AsyncManager`, `OnceInit`, `SessionLocks`): the channel protocol between
  callers and the worker thread, the race to create the one manager, and the two-level session locks, each
  a state machine whose invariants hold over every interleaving.
- **Text formats** (`Placeholders`, `Decimals`, `PgNumeric`, `ConnString`): placeholder substitution,
  PostgreSQL NUMERIC decoding and connection strings.
- **Benchmark merging** (`MergeResults`): merging result files and grouping their rows.

`Wrappers`, `Machine` and `Sequences` hold what several of these share.

## Where a promise does not hold as stated

Each of these has a concrete input and the exact condition under which the promise does hold.

- Two restock deltas are documented to commute whenever `wrap > floor`. They do not
  (`Restock.DocumentedConditionFails`). Whatever the column holds, they do if and only if the wrap is zero, the
  quantities are equal, or both lie between zero and the wrap (`CommuteOnEveryColumn`), and so do any number of
  them (`ReorderExactly`). `ModularExactly` says when the documented closed form is right.
- An empty write after a seek past the end makes the tracked length larger than the file
  (`LocalFsRuns.EmptyWriteInflates`, `LengthsSoundExactly`).
- `fstat` is documented to report the current length, but does not see writes through another descriptor
  (`LocalFsRuns.SecondWriterUnseen`, `LengthExactExactly`).
- An insert reports an existing key for any violated constraint
  (`RelationStore.EmptyTableReportsExistingKey`, `ExistingKeyExactly`).
- A string placeholder next to a quote or to another string placeholder is read as part of one literal, and a
  value rendered bare is not escaped (`Placeholders.AdjacentStringsMerge`, `RenderingExact`).
- A NUMERIC of weight -2 or less loses the zeros after the decimal point
  (`PgNumeric.SmallNumberMisread`), and an infinity, which PostgreSQL sends since version 14, is decoded as zero
  (`InfinityMisread`); `DecodingExact` gives the condition on the payload.
- Session ids are unique until the 64-bit counter wraps (`AsyncManager.OpenOverwritesAfterWrap`,
  `OverwritesExactly`).
- A connection string value that is a single quote makes the parser panic (`ConnString.LoneQuotePanics`,
  `PanickingTokenExactly`).
- Merged benchmark rows are documented to follow first appearance; an overridden key moves to the end
  (`MergeResults.RerunMovesLast`, `OrderKeptExactly`).

Where code and documentation differ otherwise, the model follows the code: relation attributes are
numbered with the primary key first (`mudu_adapter/src/sqlite.rs:352-354`), not in original column order
as `mudu_binding/src/universal/uni_relation.rs:3-8` says; a batch request carries no remote session id; and
a close forgets the session even when the remote close fails.

Host failures, remote results, short reads and scheduling are parameters or steps of the models, so the
theorems hold for all of them.

## Model

| member | source | states |
|---|---|---|
| MigrationGraph.EdgesExact | mudu_compat_migrate/src/router.rs:214-242 | an edge is planned with if and only if it is the upgrade or the rollback of a registered handler whose two versions both lie in the supported window |
| MigrationGraph.TwinPresent | mudu_compat_migrate/src/router.rs:214-242 | the edge set is closed under reversal |
| MigrationGraph.ChainBack | mudu_compat_migrate/src/handler.rs:50-61 | every chain between two versions has a chain back of the same length |
| MigrationGraph.DistanceMonotone | mudu_compat_migrate/src/router.rs:214-242 | registering handlers or widening the window removes no route and lengthens no shortest route |
| MigrationGraph.FailureIsOneStep | mudu_compat_migrate/src/router.rs:125-145 | a failed run stopped at exactly one step: every step before it succeeded, and its failure, a step failure, is the outcome |
| MigrationGraph.RunExact | mudu_compat_migrate/src/router.rs:125-145 | the result of running a chain is exactly the outcome of its handlers' calls, each in the direction of its move, on the bytes so far and with the option for the version then reached: the last output if all succeed, else the first failing call's error with component, versions and step, or its own step failure |
| MigrationGraph.RunPreservesMeaning | mudu_compat_migrate/src/router.rs:125-145 | if every handler keeps the meaning of a payload, a successful run of any chain of edges does, whatever the options |
| VersionSearch.Discover | mudu_compat_migrate/src/router.rs:264-271 | enqueueing a newly seen version keeps the search invariant: recorded edges form a shortest-path tree, the queue is sorted by distance and spans two levels |
| VersionSearch.HeadIsNearest | mudu_compat_migrate/src/router.rs:256-262 | when the queue yields a version, no chain from the start reaches it in fewer steps than recorded |
| VersionSearch.ClosedContains | mudu_compat_migrate/src/router.rs:274-280 | when the queue runs empty, every version some chain reaches has been visited, so the missing-handler error is truthful |
| Router.CompatibilityRouter.constructor | mudu_compat_migrate/src/router.rs:57-59 | a new router has no versions, no windows and no handlers |
| Router.CompatibilityRouter.SetCurrentVersion | mudu_compat_migrate/src/router.rs:62-66 | sets the current version of one component and nothing else |
| Router.CompatibilityRouter.SetMinSupportedVersion | mudu_compat_migrate/src/router.rs:69-71 | sets the minimum of one component and nothing else |
| Router.CompatibilityRouter.SetSupportedWindow | mudu_compat_migrate/src/router.rs:74-77 | sets both ends of one component's window and nothing else |
| Router.CompatibilityRouter.Register | mudu_compat_migrate/src/router.rs:100-102 | appends a handler to one component and leaves the others as they were |
| Router.CompatibilityRouter.CheckVersion | mudu_compat_migrate/src/router.rs:199-212 | refuses exactly the versions outside the window, and reports the window |
| Router.CompatibilityRouter.ComponentEdges | mudu_compat_migrate/src/router.rs:214-242 | builds exactly the edges of the registered handlers inside the window, in registration order |
| Router.CompatibilityRouter.FindPath | mudu_compat_migrate/src/router.rs:244-299 | returns a chain of edges from start to target that no chain is shorter than, or the missing-handler error exactly when there is no chain |
| Router.CompatibilityRouter.ValidatePath | mudu_compat_migrate/src/router.rs:184-197 | reports the number of steps of a shortest chain (none for equal versions), or the error planning gives |
| Router.CompatibilityRouter.Migrate | mudu_compat_migrate/src/router.rs:109-145 | returns the input for equal versions, unchecked; otherwise refuses a version outside the window, or runs a shortest chain step by step and returns its outcome |
| Router.CompatibilityRouter.UpgradeToCurrent | mudu_compat_migrate/src/router.rs:148-163 | migrates to the current version, or reports that none is set |
| Router.CompatibilityRouter.RollbackFromCurrent | mudu_compat_migrate/src/router.rs:166-181 | migrates from the current version, or reports that none is set |
| Router.PlanSymmetric | mudu_compat_migrate/src/router.rs:184-197 | planning from a to b and from b to a succeed together and take the same number of steps |
| Router.PlanLengthUnique | mudu_compat_migrate/src/router.rs:184-197 | all plans for one pair of versions have one length or one error, so migrating takes as many steps as validation reported |
| Router.PlanMonotone | mudu_compat_migrate/src/router.rs:69-102 | more handlers and a wider window keep every plan possible and make none longer |
| Router.MigrateExact | mudu_compat_migrate/src/router.rs:104-145 | equal versions return the input; otherwise the first version outside the window is reported, or the missing route, and else the result is the outcome of the handler calls along a shortest route |
| Router.MigratePreservesMeaning | mudu_compat_migrate/src/router.rs:104-145 | every successful migration keeps the payload's meaning if every handler does |
| Router.UpgradeThenRollback | mudu_compat_migrate/src/router.rs:148-181 | upgrading to the current version and rolling back restores the original bytes when each meaning has one representation at that version |
| EntryPath.NormalizeEntryPath | mudu_adapter/src/local_fs.rs:502-540 | the component loop computes the walk of the path's components, with its two errors |
| EntryPath.AcceptsExactly | mudu_adapter/src/local_fs.rs:499-540 | a path is accepted if and only if it is empty, or is relative, holds no NUL and no empty component, and no prefix has more `..` than names; the depth of the result is names minus `..` |
| EntryPath.EscapeExactly | mudu_adapter/src/local_fs.rs:517-535 | a walk is refused as escaping, rather than malformed, exactly when a prefix without empty components has more `..` than names |
| EntryPath.RefusalExactly | mudu_adapter/src/local_fs.rs:502-540 | a path that is not accepted is reported as escaping exactly when it is relative, holds no NUL, and climbs out before any empty component |
| EntryPath.NormalizedIsNormal | mudu_adapter/src/local_fs.rs:499-540 | a result has no `.`, `..` or empty component and normalises to itself |
| EntryPath.SamePlace | mudu_adapter/src/local_fs.rs:499-540 | in every tree whose parent undoes a step down, the normalised path leads to the node the original leads to |
| HostLayout.HexInjective | mudu_adapter/src/local_fs.rs:393-396 | fixed-width hexadecimal renderings of different object ids differ |
| HostLayout.HexRoundTrip | mudu_adapter/src/local_fs.rs:393-396 | an object id reads back from its lower-case hexadecimal digits |
| HostLayout.ContentPathLayout | mudu_adapter/src/local_fs.rs:393-407 | the host path of an entry is 32 digits that read as the object id, `.1`, and a dot and the entry as it is |
| HostLayout.ContentPathInjective | mudu_adapter/src/local_fs.rs:393-407 | two pairs of object and normalised entry share a host path only if they are the same pair |
| HostLayout.OnlyOwnNames | mudu_adapter/src/local_fs.rs:436-472 | a stored file contributes to the listing of its own object only, under its entry's first component |
| HostLayout.FirstSegmentExactly | mudu_adapter/src/local_fs.rs:449-462 | a host name contributes exactly what stands after the object's dotted prefix up to a slash, unless that is nothing |
| HostLayout.ReaddirObjectRoot | mudu_adapter/src/local_fs.rs:436-472 | for the children in any order, the listing is strictly ascending, names exactly the children that belong to the object, and gives each its own metadata |
| HostLayout.ListingIsOwnEntries | mudu_adapter/src/local_fs.rs:436-472 | for any set of stored paths at the root, the names listed are exactly the first components of that object's entries |
| LocalFsListing.RootHolds | mudu_adapter/src/local_fs.rs:99-146 | over every run from an empty store, the names at the fs root are exactly the first components of the entries opened for writing |
| LocalFsListing.ReaddirAfter | mudu_adapter/src/local_fs.rs:359-368 | listing an object's root after any run: ascending, naming exactly the first components of the entries that run opened for writing in that object, each with its own metadata |
| LocalFsTable.AllocFd | mudu_adapter/src/local_fs.rs:376-384 | the loop finds the least number not in the table, or reports exhaustion |
| LocalFsRuns.LeastFreeIsLeast | mudu_adapter/src/local_fs.rs:376-384 | allocation fails only when every number below the limit is taken, and otherwise gives the lowest one not taken |
| LocalFsTable.ReadAt | mudu_adapter/src/local_fs.rs:544-559 | for every way the host splits a read into short reads, the loop returns the requested range cut at the end of the file |
| LocalFsTable.FdTable.WriteFile | mudu_adapter/src/local_fs.rs:562-567 | stores the data at the offset, filling a gap with zeros, or the prefix stored before a failing write |
| LocalFsTable.FdTable.MuduFsOpen | mudu_adapter/src/local_fs.rs:99-146 | the table, files and reply after an open are those of the state machine |
| LocalFsTable.FdTable.MuduFsClose | mudu_adapter/src/local_fs.rs:156-163 | same for close |
| LocalFsTable.FdTable.MuduFsRead | mudu_adapter/src/local_fs.rs:172-182 | same for a read at the cursor |
| LocalFsTable.FdTable.MuduFsPread | mudu_adapter/src/local_fs.rs:215-223 | same for a positional read |
| LocalFsTable.FdTable.MuduFsWrite | mudu_adapter/src/local_fs.rs:191-206 | same for a write at the cursor, complete or cut short by the host |
| LocalFsTable.FdTable.MuduFsPwrite | mudu_adapter/src/local_fs.rs:232-245 | same for a positional write |
| LocalFsTable.FdTable.MuduFsLseek | mudu_adapter/src/local_fs.rs:254-278 | same for a seek from start, cursor or end, with its range errors |
| LocalFsTable.FdTable.MuduFsFstat | mudu_adapter/src/local_fs.rs:287-297 | same for the status of a descriptor |
| LocalFsRuns.RunValid | mudu_adapter/src/local_fs.rs:99-297 | over every run, cursors and lengths stay below 2^64 and every descriptor points at the host path of its own object and normalised entry |
| LocalFsRuns.OpenTakesLowest | mudu_adapter/src/local_fs.rs:99-146 | a successful open takes the lowest free descriptor, at offset zero with the file's true length and the access the flags ask for, and disturbs no other descriptor |
| LocalFsRuns.DescriptorsKept | mudu_adapter/src/local_fs.rs:156-297 | only an open adds a descriptor, and no call moves one to another file |
| LocalFsRuns.ObjectsIsolated | mudu_adapter/src/local_fs.rs:191-245 | a write through one descriptor never changes what a descriptor of another object or entry reads |
| LocalFsRuns.ContentsAreLastWrites | mudu_adapter/src/local_fs.rs:191-245 | over every run on any number of descriptors, each byte of each file is that of the last store covering it, and the length is the furthest end stored |
| LocalFsRuns.ReadsContent | mudu_adapter/src/local_fs.rs:215-223 | a positional read returns the file's own bytes, and is short only at the end of the file |
| LocalFsRuns.ReadsSplit | mudu_adapter/src/local_fs.rs:172-182 | two reads in a row return what one read of the total length returns and leave the same cursor |
| LocalFsRuns.WriteThenRead | mudu_adapter/src/local_fs.rs:215-245 | a completed write is read back through any readable descriptor of the same file |
| LocalFsRuns.AppendAtEnd | mudu_adapter/src/local_fs.rs:191-278 | seeking to the end and writing appends if and only if the descriptor knows the true length, or nothing is written |
| LocalFsRuns.SeekBack | mudu_adapter/src/local_fs.rs:254-278 | a relative seek is undone by the opposite one and moves only the cursor |
| LocalFsPositions.CursorExact | mudu_adapter/src/local_fs.rs:172-297 | a read moves its own cursor by the bytes returned, a completed write by the bytes given, which it reports, a seek to the position returned; nothing else and no failed call moves any cursor |
| LocalFsPositions.AccessExactly | mudu_adapter/src/local_fs.rs:156-297 | a call on a descriptor is refused for its size first, then exactly when the descriptor is not open or lacks the access, and then changes nothing |
| LocalFsPositions.TransfersExactly | mudu_adapter/src/local_fs.rs:172-245 | a permitted transfer fails exactly when the host cannot seek there or a write breaks off, and otherwise delivers bytes or confirms what it was given |
| LocalFsPositions.WritesSplit | mudu_adapter/src/local_fs.rs:191-206 | two completed writes in a row leave the same state as one write of both |
| LocalFsPositions.SeekExact | mudu_adapter/src/local_fs.rs:254-278 | a seek goes to its offset from the start, the cursor or the tracked length, or is refused and changes nothing |
| LocalFsPositions.SeekThenRead | mudu_adapter/src/local_fs.rs:172-278 | seeking to an offset and reading returns what a positional read there returns |
| LocalFsPositions.SeekThenWrite | mudu_adapter/src/local_fs.rs:191-278 | seeking to an offset and writing leaves the files and lengths of a positional write there |
| LocalFsPositions.OpenExactly | mudu_adapter/src/local_fs.rs:92-146 | an open succeeds if and only if the flags are allowed, the path stays inside, the file exists for reading or can be written, and a descriptor is left; a failed one gives the first reason that applies, and a read-only one changes no file |
| LocalFsPositions.WriteOpenMakes | mudu_adapter/src/local_fs.rs:113-131 | a successful write open leaves every content as it was, its own file in place, and exactly the directories above it made |
| LocalFsPositions.ReadableOnceOpened | mudu_adapter/src/local_fs.rs:92-146 | an entry once opened can be opened for reading, by any path to it, at every later point of any run |
| LocalFsRuns.ClosedIsRefused | mudu_adapter/src/local_fs.rs:156-163 | every call of legal size naming a closed descriptor is refused as a bad descriptor and changes nothing |
| LocalFsRuns.GuardExact | mudu_adapter/src/local_fs.rs:198-204 | one call makes some tracked length exceed its file exactly when it is a completed write of no bytes past the end of the file |
| LocalFsRuns.LengthsSoundExactly | mudu_adapter/src/local_fs.rs:191-245 | over a run, tracked lengths never exceed the files if and only if no call of the run is such a write |
| LocalFsRuns.TellsExact | mudu_adapter/src/local_fs.rs:198-204 | one call leaves a true tracked length true if and only if what it stores in that file it stores completely through the descriptor itself, without such an empty write, or does not reach past the end of the file |
| LocalFsRuns.LengthExactExactly | mudu_adapter/src/local_fs.rs:285-297 | while a descriptor stays open, the reported length is the current length throughout a run if and only if every call of the run is of that kind |
| LocalFsRuns.SoleWriterExact | mudu_adapter/src/local_fs.rs:285-297 | in particular a descriptor that is its file's only writer, with complete writes and no such empty one, is told the true length at every point of the run |
| LocalFsRuns.SecondWriterUnseen | mudu_adapter/src/local_fs.rs:285-297 | after a second descriptor wrote a byte, the status through the first still reports an empty file |
| LocalFsRuns.EmptyWriteInflates | mudu_adapter/src/local_fs.rs:198-204 | open, seek to 10, write nothing: the status reports ten bytes of an empty file |
| Restock.I64RoundTrip | mudu_adapter/src/sqlite.rs:566-581 | a signed 64-bit integer survives its big-endian encoding |
| Restock.SubWrapRoundTrip | mudu_binding/src/universal/uni_relation.rs:83-94 | the packed restock operands are unpacked to the same three numbers |
| Restock.DatumExactly | mudu_adapter/src/sqlite.rs:566-581 | a datum unpacks exactly if it has 24 bytes, to the signed big-endian quantity, floor and wrap in this order |
| Restock.MostSignificantFirst | mudu_adapter/src/sqlite.rs:566-581 | in a big-endian number the first byte counts most |
| Restock.ModularExactly | mudu_binding/src/universal/uni_relation.rs:27-32 | the documented modular closed form is what the update computes if and only if the difference lies within one wrap of the band |
| Restock.CommuteExactly | mudu_binding/src/universal/uni_relation.rs:27-32 | on one column value, two restocks commute if and only if the wrap is zero, both or neither dip below the floor alone, or together they dip below it by at most one wrap |
| Restock.CommuteOnEveryColumn | mudu_binding/src/universal/uni_relation.rs:27-32 | on every column value, two restocks commute if and only if the wrap is zero, the quantities are equal, or both lie between zero and the wrap; the floor does not matter |
| Restock.DocumentedConditionFails | mudu_binding/src/universal/uni_relation.rs:27-32 | the documented condition holds of concrete restocks that do not commute |
| Restock.RestocksDependOnTotal | mudu_binding/src/universal/uni_relation.rs:27-32 | inside the band, with quantities up to the wrap, any number of restocks stays in the band and depends on the total only |
| Restock.RestocksReorder | mudu_binding/src/universal/uni_relation.rs:27-32 | restocks that commute in pairs give the same stock in any order, whatever the column holds |
| Restock.ReorderExactly | mudu_binding/src/universal/uni_relation.rs:27-32 | the order of any number of restocks never matters if and only if every two of them always commute |
| RelationSql.DeltaCodes | mudu_binding/src/universal/uni_relation.rs:10-32 | on an integer column, codes 0 and 2 add the datum, 1 and 3 subtract it, 4 stores the restocked quantity, and every other code or undecodable datum is refused with its error |
| RelationSql.RelationKeyPredicate | mudu_adapter/src/sqlite.rs:384-410 | the loop builds one condition and one bind value per key column, numbered from the given start, or returns the first error |
| RelationSql.BuildInsert | mudu_adapter/src/sqlite.rs:583-601 | the loop builds the cells, key columns first, numbered from one, or returns the first error |
| RelationSql.BuildSets | mudu_adapter/src/sqlite.rs:475-539 | the loop keeps the placeholder index one past the values bound so far across plain, delta and five-operand restock assignments |
| RelationSql.BuildUpdate | mudu_adapter/src/sqlite.rs:465-553 | statement and bind vector, with the errors in the order the code finds them |
| RelationSql.EmitCorrect | mudu_adapter/src/sqlite.rs:483-530 | wherever its operands sit in the bind vector, an assignment evaluates to the change it was compiled from |
| RelationSql.SetsCorrect | mudu_adapter/src/sqlite.rs:465-553 | for every row and every arithmetic, the SET list computes every change from the old row, repeated columns included |
| RelationSql.CondsCorrect | mudu_adapter/src/sqlite.rs:384-410 | wherever its placeholders start, the WHERE clause holds of exactly the rows that have the key's values, NULL matching nothing |
| RelationSql.UpdateMeansChanges | mudu_adapter/src/sqlite.rs:465-553 | the compiled UPDATE with its bind vector selects by the key and rewrites a row as direct application of values and deltas would |
| RelationSql.UpdateSlotsExact | mudu_adapter/src/sqlite.rs:473-553 | the statement text uses ?1, ?2 and so on up to the number of bind values, each once and in order |
| RelationSql.InsertMeansBinds | mudu_adapter/src/sqlite.rs:583-601 | the compiled INSERT stores the columns and values the caller named |
| RelationSql.RestockResolves | mudu_adapter/src/sqlite.rs:513-531 | a restock item packed by the caller resolves to its three operands |
| RelationSql.RestockComputes | mudu_adapter/src/sqlite.rs:513-531 | on an integer column the CASE expression stores the restocked quantity |
| RelationStore.SortCorrect | mudu_adapter/src/sqlite.rs:352-354 | the sort is a permutation ordered by key position first, then by definition order |
| RelationStore.RelationTableColumns | mudu_adapter/src/sqlite.rs:320-365 | attributes are numbered along that order; fails exactly for an unknown table or a negative column id |
| RelationStore.IntrospectedSchema | mudu_adapter/src/sqlite.rs:352-365 | the first attributes are exactly the key columns, in key order, the others follow in definition order, and names and numbers are unique, as the refinement theorems need |
| RelationStore.PredicateSelects | mudu_adapter/src/sqlite.rs:384-410 | a predicate over any attributes, in any order or repeated, selects exactly the rows that hold all its decoded values |
| RelationAny.GetExact | mudu_adapter/src/sqlite.rs:413-462 | a get that is not refused finds a row if and only if some row holds the key values, and returns that row's selected attributes in the order asked for; a key naming every key attribute once leaves only one such row |
| RelationStore.InPlace | mudu_adapter/src/sqlite.rs:541-563 | checking every constraint row by row fails exactly when some matching row violates one, if no row changes its key |
| RelationAny.GetAny | mudu_adapter/src/sqlite.rs:413-462 | a get by any predicate returns the projection of some matching row, and nothing only if none matches |
| RelationAny.UpdateAny | mudu_adapter/src/sqlite.rs:465-564 | an update by any predicate changes all matching rows or none, counts them, may rekey them, and is refused only if a matching row breaks a constraint or meets another row's old or new key |
| RelationMeaning.UpdateExact | mudu_adapter/src/sqlite.rs:465-564 | an update that replies with a count changes exactly the rows holding the key's values, and gives each of their columns what the last value or delta naming it asks for, computed from the old row, and leaves all else alone; for any key, attributes and repetitions |
| RelationMeaning.ValuesAndDeltasStored | mudu_adapter/src/sqlite.rs:465-564 | after an update by primary key of distinct other attributes, the row under the key holds each value's own decoded datum and each delta's outcome, and else what it held; the other rows are untouched |
| RelationMeaning.InsertExact | mudu_adapter/src/sqlite.rs:583-622 | an insert that is not refused adds one row with every named attribute's decoded datum and the defaults elsewhere, unless that row is not accepted or its key is taken |
| RelationMeaning.RefusedExactly | mudu_adapter/src/sqlite.rs:367-622 | every call is refused by the first unknown attribute, undecodable datum, unknown delta code, or missing key or assignment, in the source's order, and then changes nothing |
| RelationAny.AnyRun | mudu_adapter/src/sqlite.rs:413-622 | over every run of any calls (partial or non-key predicates, repeated columns, updates of key columns, inserts without cells), the SQL table is at every point the image of a map from key to row that allows its replies |
| RelationStore.RunRefines | mudu_adapter/src/sqlite.rs:413-622 | over every run of gets, updates and inserts by primary key, the SQL table gives exactly the replies of a plain map from key to row and remains its image |
| RelationStore.ExistingKeyExactly | mudu_adapter/src/sqlite.rs:608-621 | an insert's "existing key" reply is truthful if and only if the key exists or the row meets the other constraints |
| RelationStore.EmptyTableReportsExistingKey | mudu_adapter/src/sqlite.rs:608-621 | an empty table with a NOT NULL column reports an existing key |
| AsyncManager.Worker.constructor | mudu_adapter/src/mududb.rs:943-957 | the worker starts with no sessions |
| AsyncManager.Worker.HandleAsyncCommand | mudu_adapter/src/mududb.rs:971-1180 | one command changes the session table, sends its request and answers as the protocol's command function says: opens, closes and puts are only acknowledged |
| AsyncManager.StepInv | mudu_adapter/src/mududb.rs:747-969 | every step of callers and worker keeps the protocol invariant |
| AsyncManager.OnePlace | mudu_adapter/src/mududb.rs:923-969 | at every point of every run each command is in exactly one place: queued, in work, answered, or returned |
| AsyncManager.RepliesReachTheirCaller | mudu_adapter/src/mududb.rs:747-926 | every reply goes to the caller of its command, is what that caller makes of that command's answer, and is delivered once |
| AsyncManager.WorkerNeverBlocks | mudu_adapter/src/mududb.rs:952-959 | while commands are pending the worker can step, and each of its steps leaves less to do |
| AsyncManager.CallerGetsAnswer | mudu_adapter/src/mududb.rs:923-926 | a blocked caller whose command has been handled can go on, and returns that command's answer |
| AsyncManager.CommandsAreSends | mudu_adapter/src/mududb.rs:747-926 | the commands the worker gets are the callers' sends, each as it was asked for, in order |
| AsyncManager.AnswersExact | mudu_adapter/src/mududb.rs:971-1180 | a command fails for want of its session exactly when it is no open and the session is not live at its turn, and otherwise exactly when the remote side fails; opens, closes and puts are acknowledged, the other kinds get their own remote value |
| AsyncManager.ResultsExact | mudu_adapter/src/mududb.rs:747-1180 | over every run, each result returned is what its command earned: an error exactly then, the local id for an open, an acknowledgement for a close or put, and its own remote value for the others |
| AsyncManager.OpenReturnsItsSession | mudu_adapter/src/mududb.rs:747-766 | an open that returns an id returns the local id it drew, and that session was live once the open was handled |
| AsyncManager.LiveExactly | mudu_adapter/src/mududb.rs:976-1022 | the live sessions are exactly those opened successfully and not closed since, each with the remote id of that open, even if the remote close fails |
| AsyncManager.RequestsKeepTheirSession | mudu_adapter/src/mududb.rs:1003-1180 | every request goes out on the connection of its session's open with the remote id fixed there, except a batch, which names none |
| AsyncManager.OpenNeverOverwrites | mudu_adapter/src/state.rs:6-11 | until 2^64 ids have been drawn, an open never finds its session id in use |
| AsyncManager.IdsCountUp | mudu_adapter/src/state.rs:6-11 | ids are counted up from one, and zero follows the largest 64-bit number |
| AsyncManager.OverwritesExactly | mudu_adapter/src/state.rs:6-11 | an open is about to overwrite a session if and only if one opened some multiple of 2^64 ids away is still open |
| AsyncManager.OpenOverwritesAfterWrap | mudu_adapter/src/state.rs:6-11 | one id more than 2^64 suffices for an open to overwrite a live session |
| OnceInit.OneManager | mudu_adapter/src/mududb.rs:120-133 | in every interleaving of first uses, all callers get the same manager and none finds the cell empty |
| OnceInit.NothingLost | mudu_adapter/src/mududb.rs:120-133 | in every interleaving each use has returned, failed to start or is under way, and each command is taken or pending |
| OnceInit.LosersEnd | mudu_adapter/src/mududb.rs:122-133 | the worker of a manager that lost the race can end at once, and never restarts |
| OnceInit.WinnerRuns | mudu_adapter/src/mududb.rs:942-969 | the winner's worker keeps running, and every manager is the winner, still held, or lost |
| SessionLocks.MutualExclusion | mudu_adapter/src/mududb.rs:708-731 | at most one thread is inside the closure of a session |
| SessionLocks.OwnSessionOnly | mudu_adapter/src/mududb.rs:708-731 | a call waits for, and enters the closure of, a reference made for its own session only |
| SessionLocks.SessionsKept | mudu_adapter/src/mududb.rs:250-287 | a session keeps its reference until a close takes it out, and only an insert of its own puts it in |
| SessionLocks.HoldersNeverWait | mudu_adapter/src/mududb.rs:708-731 | a thread is stuck exactly when it waits for another, and whoever is waited for is not stuck |
| SessionLocks.DeadlockFree | mudu_adapter/src/mududb.rs:269-287 | whenever a call is in progress some call can go on |
| SessionLocks.BucketsNeverInCycles | mudu_adapter/src/mududb.rs:708-731 | even if threads inside closures wait for one another through the server, no wait cycle involves a map bucket |
| SessionLocks.ClosedToOthersExactly | mudu_adapter/src/mududb.rs:269-287 | once a close has taken a session out of the map, the threads that may still come to be inside its closure are exactly the closing one and those that copied the reference before |
| SessionLocks.EntersAfterClose | mudu_adapter/src/mududb.rs:269-287 | a call that looked the session up enters its closure after the close has returned |
| Placeholders.MatchIndices | mudu_adapter/src/sql.rs:291-291 | returns every placeholder position in order and misses none |
| Placeholders.ReplacePlaceholders | mudu_adapter/src/sql.rs:286-359 | fails exactly on a count mismatch, returns the template for no parameters, and otherwise renders each placeholder in order |
| Placeholders.ParamsReadBack | mudu_adapter/src/sql.rs:311-352 | a string reads back as one literal of exactly its text; a number stays bare; the word null in any letter case becomes NULL; any other text that is not double-quoted is rendered as it is |
| Placeholders.ShapeExact | mudu_adapter/src/sql.rs:309-352 | every parameter renders in the shape of the tokens it stands for |
| Placeholders.QuotedTextReadsBack | mudu_adapter/src/sql.rs:342-350 | a value whose textual form is double-quoted reads back as the text between the quotes |
| Placeholders.RenderingExact | mudu_adapter/src/sql.rs:278-359 | for every template and parameters: refused exactly when there are parameters but not one for every question mark; otherwise every parameter stands for a placeholder and the text reads as the template with each placeholder replaced by its value if and only if nothing is to replace, or no question mark stands inside a quoted string, no placeholder that renders quoted touches a quote or another such placeholder, and no parameter rendered bare contains a quote |
| Placeholders.MarksExactly | mudu_adapter/src/sql.rs:291-297 | all question marks are placeholders exactly when none stands inside a quoted string |
| Placeholders.AdjacentStringsMerge | mudu_adapter/src/sql.rs:278-359 | two adjacent string placeholders read as one literal |
| Placeholders.LexEnclosed | tree-sitter-sql/grammar.js:2777-2777 | a text enclosed with doubled quotes reads back as itself, whatever follows |
| Placeholders.QuoteIdentReadsBack | mudu_adapter/src/sqlite.rs:313-316 | a quoted identifier names exactly the original |
| PgNumeric.FromSql | mudu_adapter/src/postgres.rs:499-567 | for every payload: the text, one of three errors, or a panic, which negative counts give except that without overflow checks fewer than -4 groups count as truncated |
| PgNumeric.ReadGroups | mudu_adapter/src/postgres.rs:528-531 | the loop reads the base-10000 groups |
| PgNumeric.GroupsAt | mudu_adapter/src/postgres.rs:528-531 | group i is the 16-bit number behind the header and the groups before it |
| PgNumeric.FieldsExact | mudu_adapter/src/postgres.rs:514-520 | the signed header fields are 16-bit two's complement numbers |
| PgNumeric.RefusedExactly | mudu_adapter/src/postgres.rs:510-527 | exactly which payloads are too short, NaN or truncated, and which make the decoder panic |
| PgNumeric.AppendInteger | mudu_adapter/src/postgres.rs:537-551 | the loop prints the integer groups, the first without padding, or a zero |
| PgNumeric.Fraction | mudu_adapter/src/postgres.rs:552-565 | the loop prints the fraction groups, cut or padded to the scale |
| PgNumeric.TextIsDecimal | mudu_adapter/src/postgres.rs:537-565 | the integer part is never empty, both parts are digits, and the fraction has exactly the scale's number of them |
| PgNumeric.ShownIs | mudu_adapter/src/postgres.rs:537-565 | the number the text shows, for every weight |
| PgNumeric.MagnitudeExact | mudu_adapter/src/postgres.rs:537-565 | the digits shown are the payload's magnitude, truncated at the scale, if and only if the weight is at least -1 or all digits shown are zero |
| PgNumeric.TextReads | mudu_adapter/src/postgres.rs:537-567 | the text reads, as a signed decimal numeral, as the signed digits shown with exactly the scale's number of places, whatever the groups |
| PgNumeric.DecodingExact | mudu_adapter/src/postgres.rs:499-567 | for every payload that is decoded, the text reads as the number the server sent, truncated at its scale, if and only if the sign word is 0x0000 or 0x4000, the groups are base-10000 digits, and the weight is at least -1 or all digits shown are zero; otherwise it reads as another number |
| PgNumeric.ExactWhenScaleFits | mudu_adapter/src/postgres.rs:499-567 | nothing is lost when the scale covers all groups |
| PgNumeric.SmallNumberMisread | mudu_adapter/src/postgres.rs:552-565 | the payload of 0.00001234 is decoded as 0.12340000 |
| PgNumeric.InfinityMisread | mudu_adapter/src/postgres.rs:505-536 | the payload of either infinity is decoded as 0 |
| ConnString.ParseDbConnectString | mudu_runtime/src/db_connector.rs:117-145 | the character loop computes the tokens |
| ConnString.TokensKeepText | mudu_runtime/src/db_connector.rs:117-145 | the tokens hold every character except whitespace outside quotes, in order |
| ConnString.TokensStable | mudu_runtime/src/db_connector.rs:117-145 | for every input, its tokens joined by spaces split the same way |
| ConnString.ParseExactly | mudu_runtime/src/db_connector.rs:96-115 | a token is refused exactly when it has no `=`; otherwise it splits at the first, and loses one pair of quotes |
| ConnString.PanicsExactly | mudu_runtime/src/db_connector.rs:107-111 | stripping the quotes slices out of range exactly for a value that is one quote |
| ConnString.TokensExactly | mudu_runtime/src/db_connector.rs:117-145 | a string is a token of the input if and only if it stands between boundaries (an end of the input, or whitespace outside quotes) and has whitespace only inside its own quotes |
| ConnString.PanickingTokenExactly | mudu_runtime/src/db_connector.rs:96-145 | for every input, some token panics if and only if a stretch between boundaries is a key, an equals sign and one quote |
| ConnString.LoneQuotePanics | mudu_runtime/src/db_connector.rs:96-145 | the input `k='` is one token, and it panics |
| ConnString.ConnectWith | mudu_runtime/src/db_connector.rs:38-78 | the first token that is not a pair with a known database type decides how opening fails; without one, the last value of each setting is used and a missing path is an error |
| ConnString.OpenedExact | mudu_runtime/src/db_connector.rs:34-82 | with acceptable tokens only, opening fails exactly when no database path is set, and else connects to the last one set with the last type named, LibSQL if none is, and the last or empty app and schema |
| ConnString.TypesByName | mudu_runtime/src/db_connector.rs:20-25 | a database type is accepted exactly by its own name |
| ConnString.WhitespaceExactly | mudu_runtime/src/db_connector.rs:128-128 | whitespace is exactly the Unicode White_Space property |
| ConnString.PairParses | mudu_runtime/src/db_connector.rs:96-115 | a printed pair parses to itself |
| ConnString.PairsRoundTrip | mudu_runtime/src/db_connector.rs:96-145 | a list of pairs printed and joined comes back, whatever spaces and signs the values hold |
| MergeResults.MergeFiles | example/tpcc/bench_merge_results.py:74-113 | the loop computes the merge of the files |
| MergeResults.SurvivorsExact | example/tpcc/bench_merge_results.py:74-113 | for every key, the merged rows are exactly the error-free rows of the last file that has one |
| MergeResults.MergeOfMerges | example/tpcc/bench_merge_results.py:74-113 | merging two merges is merging all files, row order included |
| MergeResults.OrderKeptExactly | example/tpcc/bench_merge_results.py:80-81 | over any list of files, the merged rows list their keys in the documented order of first appearance if and only if, in that order, the last file with a key never comes earlier than the one before and keys sharing a last file stand as they do in it |
| MergeResults.MergedByAge | example/tpcc/bench_merge_results.py:84-113 | the merged keys are ordered by the last file that has them, and within it by their order there |
| MergeResults.OrderKeptByOneFile | example/tpcc/bench_merge_results.py:84-113 | one more file leaves the keys merged so far in place if and only if the keys it overrides are the last ones so far and it begins with them in the same order |
| MergeResults.RerunMovesLast | example/tpcc/bench_merge_results.py:80-81 | re-running the first of two combinations moves it behind the second |
| MergeResults.AggregateAll | example/tpcc/bench_merge_results.py:116-130 | groups are in order of first appearance, hold all rows and no row twice, and keep the rows' order |

## Left out

- Sockets, HTTP, database drivers and the asynchronous mirrors of the calls: input and output only.
- The MySQL adapter, the rest of the PostgreSQL adapter, the key-value layer, dispatch and the terminal interface: they would only add easy members.
- The storage kernel, the write-ahead log and the transaction layer.
- Durability (`fsync`), `mudu_fs_stat`, listing below an object's root, and file names that are not UTF-8.
- Host errors other than a write that fails part way, and the retry of interrupted reads.
- Error message texts: errors are values with the fields the source gives them.
- Conversions between datums and SQL values: the decoder is any function; a get returns SQL values before they are encoded again.
- SQLite's type affinity and its equality across types: the engine's arithmetic is any function, equality is on values.
- Poisoned mutexes, panics of the worker thread, and the process-wide cell that holds an installed router.
- The statistics computed per group of benchmark rows.
- Router.CompatibilityRouter.Register: versions are natural numbers, not 32-bit ones; no version is computed, so none can overflow.
- RelationStore.RunRefines: covers calls whose key names exactly the key attributes and whose updates touch other attributes, each once, with a decoder that never yields NULL; RelationAny.AnyRun covers the other calls.
- RelationAny.AnyRun: tables without a primary key are not covered (`WellFormed` asks for a key column), key columns are taken to be NOT NULL, and an insert to name each column once; SQLite admits several rows whose key has a NULL, and fills an INTEGER PRIMARY KEY left out of an insert by itself.
- Restock.ModularExactly: on unbounded integers, as the documentation states it; 64-bit overflow in the SQL engine is not modelled.
- Placeholders.RenderingExact: double-quoted identifiers and comments of the template are read as plain text.
- LocalFsRuns.WriteThenRead: for offsets a host seek accepts, which are those below 2^63; larger ones are errors in the state machine.
- SessionLocks.DeadlockFree: waiting through the server is not part of it; SessionLocks.BucketsNeverInCycles covers it.
