# Schema comparison core of postgres-dpa-analyzer, in Dafny

postgres-dpa-analyzer captures the column layout of PostgreSQL tables and later compares a
stored capture with a fresh one. This project models its core:

- `SchemaCompareService`: a per-table version ledger (`tableVersionMap`), a write-once store of
  gathered schema batches (`gatheredSchemas`), five-character random analysis identifiers, and
  `performSchemaAnalysis`, which classifies two captures of one table as VERSION_ERROR,
  NO_CHANGES or UPDATED and lists deleted, changed-type and added columns.
- `AnalyzerController`: `gatherSchema` (bump each table's version, fetch its columns and rows,
  give up at the first failure), `gatherTablesSchemas` (gather and store under a new
  identifier) and `performTableSchemaAnalysis` (re-gather the tables of a stored batch, store
  the fresh batch and compare each old schema with the fresh schema of the same table).

Modules:

- `SchemaModel`: the records (`Column`, `TableSchema`, `AnalysisResult`) and the responses.
- `Collections`: `Filter` for a stream filter and `ToMap` for `Collectors.toMap`.
- `Text`: `equalsIgnoreCase`.
- `SchemaDiff`: the comparison, as the function `Compare` and the method `PerformSchemaAnalysis`
  with its column loop.
- `CompareService`: the class `SchemaCompareService` over two maps, with pure functions for
  what each call does to them.
- `Analyzer`: the class `AnalyzerController` and the functions `Gather`, `CompareAll` and
  `Reanalysis` that specify its loops.

Every loop of the source is a `for` loop with invariants. Each loop is proved equal to a
function defined by recursion on the last element. The lemmas are stated about those
functions.

The column DAO and the row DAO are function parameters (`ColumnFetch`, `RowFetch`).
`generateRandomID` takes the generator's five draws as a parameter.

A Java exception that escapes `performTableSchemaAnalysis` is the response `Thrown(e)`:
- `DuplicateKey` when `Collectors.toMap` meets a repeated key;
- `NullPointer` when an old table has no fresh schema.

The HTTP wrapper then turns either into an INTERNAL_ERROR response.

The name `addedColumns` promises the columns whose name only the new schema has. The
code's filter tests whether a set of names contains a `Column` object, which can never be
true, assuming `Column.equals` accepts only `Column`s (`Column`'s source is not part of this
model), so `addedColumns` is always empty. The model follows the code: `NameSetContainsColumn`
is false by definition, and `AddedColumnsAlwaysEmpty` proves the list empty from it.
`IntendedAddedColumns` is what the name promises, and
`NewOnlyColumnsGoUnreported` shows a case where they differ: a column only the new schema has
goes unreported and the status is still NO_CHANGES.

The global properties assume an honest column DAO (`HonestColumnFetch`). Such a DAO returns a
schema with the requested table name and version and with distinct column names. It is a
hypothesis of those lemmas only; no method requires it.

## Model

| member | source | states |
|---|---|---|
| CompareService.SchemaCompareService.constructor | src/main/java/com/hackaton/SchemaCompareService.java:23-25 | both maps start empty |
| CompareService.SchemaCompareService.GetAndIncCurrentTableVersion | src/main/java/com/hackaton/SchemaCompareService.java:27-36 | returns 0 exactly for an unseen table, else its last version plus one. The ledger records the returned version. No other table's entry changes. |
| CompareService.NextVersion | src/main/java/com/hackaton/SchemaCompareService.java:28-35 | definition: the version a call hands out, 0 for a table without an entry, else the entry plus one |
| CompareService.Bump | src/main/java/com/hackaton/SchemaCompareService.java:28-33 | definition: the ledger after one call, with the table's entry set to the version handed out and every other entry kept |
| CompareService.LedgerAfterCounts | src/main/java/com/hackaton/SchemaCompareService.java:27-36 | after a run of calls, a table has an entry exactly when it had one or was asked for. The entry is one below its first version plus the number of calls for it. |
| CompareService.NthCallVersion | src/main/java/com/hackaton/SchemaCompareService.java:27-36 | the call for `tables[k]` returns the table's first version plus the number of earlier calls for that table (from an empty ledger, the n-th call returns n - 1) |
| CompareService.LedgerOnlyGrows | src/main/java/com/hackaton/SchemaCompareService.java:27-36 | calls never drop or lower an entry. A version handed out for a table that already had an entry is above that entry. |
| CompareService.LedgerAfterExtendsPrefix | src/main/java/com/hackaton/SchemaCompareService.java:27-36 | the ledger after a longer run of calls extends the ledger after any prefix of it |
| CompareService.HandedOutBelowLedger | src/main/java/com/hackaton/SchemaCompareService.java:27-36 | every version handed out during a run is at most the table's entry afterwards |
| CompareService.IdChar | src/main/java/com/hackaton/SchemaCompareService.java:20-21 | each of the 62 indices names a letter or digit from the range '0'..'z' |
| CompareService.IdCharIndex | src/main/java/com/hackaton/SchemaCompareService.java:20-21 | every letter or digit is `IdChar` of some index, so the alphabet is exactly the 62 letters and digits |
| CompareService.GenerateRandomId | src/main/java/com/hackaton/SchemaCompareService.java:38-40 | the identifier has five characters, each a letter or digit |
| CompareService.EveryIdIsPossible | src/main/java/com/hackaton/SchemaCompareService.java:38-40 | every five-character string of letters and digits can be generated, so two identifiers can coincide |
| CompareService.Save | src/main/java/com/hackaton/SchemaCompareService.java:42-44 | a save adds only its identifier. Existing entries never change. The identifier then holds the earlier batch if there was one, else the new one. |
| CompareService.SchemaCompareService.SaveSchemas | src/main/java/com/hackaton/SchemaCompareService.java:42-44 | returns true exactly when the identifier was free. A rejected save leaves the store unchanged. A later lookup returns the saved batch or the earlier one. |
| CompareService.SchemaCompareService.GetSchemasForAnalysis | src/main/java/com/hackaton/SchemaCompareService.java:46-53 | the stored batch for a known identifier, the empty list for an unknown one |
| CompareService.Lookup | src/main/java/com/hackaton/SchemaCompareService.java:46-53 | definition: the batch stored under an identifier, or the empty list when there is none |
| CompareService.CoverageKept | src/main/java/com/hackaton/SchemaCompareService.java:42-44 | saving schemas whose versions were handed out, while the ledger only grows, keeps every stored version covered by the ledger |
| Collections.Filter | src/main/java/com/hackaton/SchemaCompareService.java:80 | the result is no longer than the input and holds exactly the input elements that pass the test |
| Collections.FilterAppend | src/main/java/com/hackaton/SchemaCompareService.java:80 | filtering a list with one more element at the end filters the list, then keeps that element exactly when it passes; with the empty case this fixes the order and multiplicity of the result |
| Collections.ToMap | src/main/java/com/hackaton/SchemaCompareService.java:68 | with distinct keys, the map's keys are exactly the elements' keys and each key maps to its element |
| SchemaDiff.ColumnsByName | src/main/java/com/hackaton/SchemaCompareService.java:68 | `newColumnMap` has a key exactly for each new column name, and each name maps to its column |
| SchemaDiff.AnalysisThrows | src/main/java/com/hackaton/SchemaCompareService.java:68 | definition: `toMap` on the new columns throws exactly when the versions increase (so the map is built) and two new columns share a name |
| Text.EqualsIgnoreCase | src/main/java/com/hackaton/SchemaCompareService.java:74 | definition: equal lengths and, position by position, the same character after folding ASCII upper case to lower case |
| SchemaDiff.DeletedColumns | src/main/java/com/hackaton/SchemaCompareService.java:69-72 | definition: the loop's deleted list over the old columns, in order, for a name missing from the map |
| SchemaDiff.DeletedColumnsMembers | src/main/java/com/hackaton/SchemaCompareService.java:69-72 | the deleted list is no longer than the old columns and holds exactly the old columns whose name the map lacks |
| SchemaDiff.ChangedTypeColumns | src/main/java/com/hackaton/SchemaCompareService.java:73-76 | definition: the loop's changed-type list, in old order, of the map's column for each old column whose type differs ignoring case |
| SchemaDiff.ChangedTypeColumnsMembers | src/main/java/com/hackaton/SchemaCompareService.java:73-76 | the changed-type list is no longer than the old columns, and each entry is the map's column for an old column whose type it does not match ignoring case |
| SchemaDiff.PreservedNames | src/main/java/com/hackaton/SchemaCompareService.java:77 | definition: the names the loop adds to `preservedColumnNames` |
| SchemaDiff.PreservedNamesMembers | src/main/java/com/hackaton/SchemaCompareService.java:77 | the preserved names are exactly the old column names the map has |
| SchemaDiff.NameSetContainsColumn | src/main/java/com/hackaton/SchemaCompareService.java:80 | definition: `preservedColumnNames.contains(c)` for a Column `c`, false for every set and column |
| SchemaDiff.AddedColumns | src/main/java/com/hackaton/SchemaCompareService.java:80 | `addedColumns` as written: exactly the new columns the vacuous test accepts |
| SchemaDiff.AddedColumnsAlwaysEmpty | src/main/java/com/hackaton/SchemaCompareService.java:80 | the filter as written keeps no column, for every column list and every set of names |
| SchemaDiff.Compare | src/main/java/com/hackaton/SchemaCompareService.java:55-87 | echoes both versions. VERSION_ERROR exactly when old is above new. Equal versions give NO_CHANGES. No column lists unless versions increase. `addedColumns` is empty. NO_CHANGES exactly when versions are equal, or they increase and nothing was deleted or retyped. |
| SchemaDiff.PerformSchemaAnalysis | src/main/java/com/hackaton/SchemaCompareService.java:55-87 | the method with its loop computes `Compare` |
| SchemaDiff.ScanOldColumns | src/main/java/com/hackaton/SchemaCompareService.java:64-79 | the loop's deleted, changed-type and preserved-name accumulators equal their specifications over all old columns |
| SchemaDiff.DeletedAreMissingByName | src/main/java/com/hackaton/SchemaCompareService.java:69-72 | the deleted columns are exactly the old columns, in old order, whose name no new column has |
| SchemaDiff.RetypedByName | src/main/java/com/hackaton/SchemaCompareService.java:70-75 | a name-map lookup yields the new column of that name. An old column is retyped exactly when the lookup succeeds with a type that differs ignoring case. |
| SchemaDiff.ChangedAreNewSideOfRetyped | src/main/java/com/hackaton/SchemaCompareService.java:73-76 | the k-th changed-type column is a new column with the name of the k-th retyped old column and a type that differs from it ignoring case |
| SchemaDiff.DeletedColumnsExactly | src/main/java/com/hackaton/SchemaCompareService.java:69-72 | when versions increase, `deletedColumns` is the old columns whose name the new schema lacks |
| SchemaDiff.ChangedTypeColumnsExactly | src/main/java/com/hackaton/SchemaCompareService.java:73-76 | when versions increase, `changedTypeColumns` pairs one-to-one, in old order, with the old columns retyped ignoring case, and holds their new side |
| SchemaDiff.NoChangesIffEveryOldColumnSurvives | src/main/java/com/hackaton/SchemaCompareService.java:82-85 | when versions increase, NO_CHANGES exactly when every old column is still present with the same type ignoring case |
| SchemaDiff.IntendedAddedColumns | src/main/java/com/hackaton/SchemaCompareService.java:80 | what the name `addedColumns` promises: exactly the new columns whose name the old schema lacks |
| SchemaDiff.NewOnlyColumnsGoUnreported | src/main/java/com/hackaton/SchemaCompareService.java:80-85 | a new-only column is an intended added column, yet the source reports NO_CHANGES with no added columns when every old column survives |
| Analyzer.Gather | src/main/java/com/hackaton/controllers/AnalyzerController.java:162-188 | a failed gather is an INTERNAL_ERROR failure. A successful one yields one schema per requested name. |
| Analyzer.AnalyzerController.GatherSchema | src/main/java/com/hackaton/controllers/AnalyzerController.java:162-188 | the loop's result and the ledger it leaves equal `Gather`. The store is unchanged. |
| Analyzer.FetchFailure | src/main/java/com/hackaton/controllers/AnalyzerController.java:170-181 | the failure returned when a fetch fails is an INTERNAL_ERROR failure, naming the table in the schema-fetch or the row-fetch message |
| Analyzer.GatherStaysFailed | src/main/java/com/hackaton/controllers/AnalyzerController.java:170-181 | once gathering has given up, later names change neither the response nor the ledger |
| Analyzer.GatheredOnePerName | src/main/java/com/hackaton/controllers/AnalyzerController.java:165-187 | gathering succeeds exactly when both fetches succeed for every name at the version handed out for it. The result is then, in request order, the schema fetched for each name, and the ledger was bumped once per name. |
| Analyzer.GatherFailsAtFirstMissingFetch | src/main/java/com/hackaton/controllers/AnalyzerController.java:168-181 | a failed gather stopped at some name k: every earlier name was fetched, name k was not, the message names that table, and the ledger was bumped for the first k + 1 names only |
| Analyzer.GatherLedgerGrows | src/main/java/com/hackaton/controllers/AnalyzerController.java:167 | gathering, successful or not, never drops or lowers a ledger entry |
| Analyzer.AnalyzerController.GatherTablesSchemas | src/main/java/com/hackaton/controllers/AnalyzerController.java:146-160 | the ledger is the one gathering leaves. A failure is returned and nothing is stored. On success the batch is saved under the generated identifier, which is returned. With an honest column DAO, every stored version stays covered by the ledger. |
| Analyzer.SchemasByTable | src/main/java/com/hackaton/controllers/AnalyzerController.java:132 | with distinct table names, `newTableSchemaMap` has a key exactly for each fresh table, and each name maps to its schema |
| Analyzer.TableNames | src/main/java/com/hackaton/controllers/AnalyzerController.java:124 | definition: the table names of the stored batch, in stored order |
| Analyzer.CompareAll | src/main/java/com/hackaton/controllers/AnalyzerController.java:136-141 | definition: the comparison loop. The first old schema with no fresh schema throws NullPointer; the first with repeated fresh column names throws DuplicateKey; otherwise each comparison is appended |
| Analyzer.CompareAllFirstException | src/main/java/com/hackaton/controllers/AnalyzerController.java:136-141 | the first old schema that cannot be compared decides the exception: NullPointer when the map has no schema for its table, DuplicateKey otherwise (repeated fresh column names) |
| Analyzer.CompareAllStaysFailed | src/main/java/com/hackaton/controllers/AnalyzerController.java:136-141 | once an exception has stopped the comparison loop, later old schemas change nothing |
| Analyzer.CompareAllStep | src/main/java/com/hackaton/controllers/AnalyzerController.java:136-141 | helper (a proof step for `CompareWithFresh`): `CompareAll` unfolded at one more old schema: a missing fresh schema throws NullPointer, repeated fresh column names throw DuplicateKey, otherwise the comparison is appended |
| Analyzer.ComparedOnePerOldSchema | src/main/java/com/hackaton/controllers/AnalyzerController.java:136-141 | the loop completes exactly when every old table has a fresh schema it can be compared with. It then yields, in old order, the comparison of each old schema with the fresh schema of its table. |
| Analyzer.CompareWithFresh | src/main/java/com/hackaton/controllers/AnalyzerController.java:134-141 | the comparison loop computes `CompareAll` |
| Analyzer.Reanalysis | src/main/java/com/hackaton/controllers/AnalyzerController.java:131-143 | definition: the response after the save at :131 — DuplicateKey when `toMap` at :132 meets a repeated table name, else the comparison loop's exception or the results under the new identifier |
| Analyzer.ReanalysisOutcome | src/main/java/com/hackaton/controllers/AnalyzerController.java:131-143 | repeated fresh table names give DuplicateKey; otherwise the response is `Analysed` under the new identifier exactly when every old schema can be compared, and then holds each comparison in old order; nothing else is answered |
| Analyzer.AnalyzerController.SaveAndCompare | src/main/java/com/hackaton/controllers/AnalyzerController.java:130-143 | the fresh batch is saved under the new identifier, and the response is `Reanalysis` of the old batch against it |
| Analyzer.AnalyzerController.PerformTableSchemaAnalysis | src/main/java/com/hackaton/controllers/AnalyzerController.java:114-144 | an unknown or empty batch gives DATA_NOT_FOUND with the identifier and changes nothing. Otherwise the ledger is the one gathering leaves. A gather failure is returned and nothing is stored. On success the fresh batch is saved and the old one is re-analysed against it. Coverage is kept. With an honest DAO, a covered store and distinct old tables, nothing is thrown and nothing is VERSION_ERROR. |
| Analyzer.AnalyzerController.constructor | src/main/java/com/hackaton/controllers/AnalyzerController.java:36-37 | the controller uses the given service (the `@Autowired` field) |
| Analyzer.RegatheredVersionsExceedStored | src/main/java/com/hackaton/controllers/AnalyzerController.java:124-130 | with an honest DAO, re-gathering covered schemas yields, per old schema and in order, a schema of the same table at a strictly higher version |
| Analyzer.ReanalysisNeverReportsVersionError | src/main/java/com/hackaton/controllers/AnalyzerController.java:124-143 | sequentially, re-analysing a covered batch of distinct tables with an honest DAO answers with the new identifier and one result per old schema. Each result echoes the old version, has a higher new version, and is not VERSION_ERROR. |
| Analyzer.GatherKeepsCoverage | src/main/java/com/hackaton/controllers/AnalyzerController.java:152-157 | gathering keeps every stored version covered. With an honest DAO, saving what it gathered keeps the whole store covered. |
| Analyzer.ReanalysisCovered | src/main/java/com/hackaton/controllers/AnalyzerController.java:114-144 | the no-VERSION_ERROR property stated on the service's state before a re-analysis |

## Left out

- Concurrency: the two maps are `ConcurrentHashMap`s, and `getAndIncCurrentTableVersion` is a non-atomic read, increment and write (the source marks this as a to-do). The model is sequential. It proves what one call and a run of calls do, not what interleaved callers observe.
- CompareService.SchemaCompareService.GetAndIncCurrentTableVersion: versions are unbounded; the Java `Integer` would wrap after 2^31 - 1 calls for one table, which the model does not capture.
- CompareService.GenerateRandomId: the generator's draws are a parameter, so the model says nothing about their distribution. `EveryIdIsPossible` shows only that every identifier can occur.
- Text.EqualsIgnoreCase: case folding covers ASCII letters only. Java's `equalsIgnoreCase` also folds other Unicode letters.
- The HTTP layer is not modelled: the REST endpoints, JSON reading of the request body and the try/catch wrappers (AnalyzerController.java:47-100, 147-148). The table names of a gather request are a parameter. An exception is the response `Thrown(e)`, where the wrapper would answer INTERNAL_ERROR with the exception's message.
- `connectToDB` and `getTablesForSchema` (AnalyzerController.java:58-67, 102-112): they only pass DAO results through.
- The DAO services, the JDBC connection and the fetched rows are not modelled. The row fetch matters only through whether it succeeds. `TableSchema` carries no row data.
- Logging is not modelled.
- Exception messages: `Thrown` carries only the kind of exception, not the message Java would build.
- SchemaDiff.Compare: it requires distinct new column names when versions increase, where `Collectors.toMap` at SchemaCompareService.java:68 would throw. The exception is modelled one level up, where `CompareWithFresh` checks `AnalysisThrows` and answers `Left(DuplicateKey)`.
- `addedColumns`: the intended meaning (new columns whose name the old schema lacks) and the code disagree, and the model follows the code (always empty). The intended list is `IntendedAddedColumns`.
- The boolean returned by `saveSchemas` is ignored by the controller, as in the source. A batch whose random identifier is already taken is silently not stored, and the response still names that identifier.
- The source files of `TableSchemaAnalysisResult`, `Column`, `TableSchema` and `AnalysisResponseRoot` are not part of this model; the datatypes here follow their use in the two core files. For VERSION_ERROR and for equal versions, the three-argument result constructor is taken to leave all three column lists empty.
