/** The orchestration in `AnalyzerController`: gathering the schemas of a list of tables,
    storing them under a new identifier, and comparing a stored batch against a fresh gather.
    The database access objects are parameters: `fetchColumns` stands for
    `columnDaoService.streamColumns` and `fetchRows` for `rowDaoService.streamRows`. */
module Analyzer {
  import opened SchemaModel
  import opened Collections
  import opened SchemaDiff
  import opened CompareService

  /** `columnDaoService.streamColumns(version, tableName)`. */
  type ColumnFetch = (int, string) -> Option<TableSchema>

  /** `rowDaoService.streamRows(tableName, schema)`. */
  type RowFetch = (string, TableSchema) -> Option<TableSchema>

  /** A column fetch that builds the schema it returns from the name and version it was
      given, as a database table (with its distinct column names) does. */
  ghost predicate HonestColumnFetch(fetchColumns: ColumnFetch) {
    forall version: int, name: string :: fetchColumns(version, name).Some? ==>
      && fetchColumns(version, name).value.tableName == name
      && fetchColumns(version, name).value.version == version
      && DistinctColumnNames(fetchColumns(version, name).value.columns)
  }

  /** Both fetches succeed for `name` at `version`. */
  predicate FetchOk(fetchColumns: ColumnFetch, fetchRows: RowFetch, version: int, name: string) {
    fetchColumns(version, name).Some? && fetchRows(name, fetchColumns(version, name).value).Some?
  }

  /** The response `gatherSchema` gives up with when a fetch for `name` fails. */
  function FetchFailure(fetchColumns: ColumnFetch, version: int, name: string): (r: Response)
    ensures r.Failure? && r.status == InternalError
  {
    if fetchColumns(version, name).None? then
      Failure(InternalError, "Failed to fetch schema for table: " + name)
    else
      Failure(InternalError, "Failed to fetch rows for table: " + name)
  }

  /** What `gatherSchema(names)` returns, with the ledger it leaves. */
  function Gather(ledger: Ledger, names: seq<string>, fetchColumns: ColumnFetch, fetchRows: RowFetch)
    : (r: (Either<Response, seq<TableSchema>>, Ledger))
    ensures r.0.Left? ==> r.0.left.Failure? && r.0.left.status == InternalError
    ensures r.0.Right? ==> |r.0.right| == |names|
    decreases |names|
  {
    if names == [] then (Right([]), ledger)
    else
      var before := Gather(ledger, names[..|names| - 1], fetchColumns, fetchRows);
      var prev, l := before.0, before.1;
      var name := names[|names| - 1];
      var version := NextVersion(l, name);
      if prev.Left? then (prev, l)
      else if !FetchOk(fetchColumns, fetchRows, version, name) then
        (Left(FetchFailure(fetchColumns, version, name)), Bump(l, name))
      else
        (Right(prev.right + [fetchColumns(version, name).value]), Bump(l, name))
  }

  /** Once gathering has given up, later names change nothing. */
  lemma {:induction false} GatherStaysFailed(ledger: Ledger, names: seq<string>, i: nat,
                                             fetchColumns: ColumnFetch, fetchRows: RowFetch)
    requires i <= |names|
    requires Gather(ledger, names[..i], fetchColumns, fetchRows).0.Left?
    ensures Gather(ledger, names, fetchColumns, fetchRows) == Gather(ledger, names[..i], fetchColumns, fetchRows)
    decreases |names| - i
  {
    if i < |names| {
      var prefix := names[..|names| - 1];
      assert prefix[..i] == names[..i];
      GatherStaysFailed(ledger, prefix, i, fetchColumns, fetchRows);
    } else {
      assert names[..i] == names;
    }
  }

  lemma HandedOutOfPrefix(ledger: Ledger, names: seq<string>, i: nat)
    requires i <= |names|
    ensures forall k :: 0 <= k < i ==> HandedOut(ledger, names[..i])[k] == HandedOut(ledger, names)[k]
  {
    forall k | 0 <= k < i ensures HandedOut(ledger, names[..i])[k] == HandedOut(ledger, names)[k] {
      assert names[..i][..k] == names[..k];
    }
  }

  /** Both fetches succeed for each name at the version beside it. */
  ghost predicate FetchedAt(fetchColumns: ColumnFetch, fetchRows: RowFetch, versions: seq<nat>, names: seq<string>) {
    && |versions| == |names|
    && forall k :: 0 <= k < |names| ==> FetchOk(fetchColumns, fetchRows, versions[k], names[k])
  }

  /** Both fetches succeed for every name at the version handed out for it. */
  ghost predicate AllFetched(ledger: Ledger, names: seq<string>, fetchColumns: ColumnFetch, fetchRows: RowFetch) {
    FetchedAt(fetchColumns, fetchRows, HandedOut(ledger, names), names)
  }

  /** `schemas` holds, in request order, the schema the column fetch returned for each name
      at the version handed out for it. */
  ghost predicate OnePerName(ledger: Ledger, names: seq<string>, fetchColumns: ColumnFetch,
                             schemas: seq<TableSchema>) {
    && |schemas| == |names|
    && forall k :: 0 <= k < |names| ==> fetchColumns(HandedOut(ledger, names)[k], names[k]) == Some(schemas[k])
  }

  lemma FetchedAtOfPrefix(fetchColumns: ColumnFetch, fetchRows: RowFetch, versions: seq<nat>, names: seq<string>)
    requires names != [] && |versions| == |names|
    ensures FetchedAt(fetchColumns, fetchRows, versions, names) <==>
              && FetchedAt(fetchColumns, fetchRows, versions[..|names| - 1], names[..|names| - 1])
              && FetchOk(fetchColumns, fetchRows, versions[|names| - 1], names[|names| - 1])
  {
    var n := |names|;
    var vs, ns := versions[..n - 1], names[..n - 1];
    if FetchedAt(fetchColumns, fetchRows, versions, names) {
      forall k | 0 <= k < n - 1 ensures FetchOk(fetchColumns, fetchRows, vs[k], ns[k]) {
        assert vs[k] == versions[k] && ns[k] == names[k];
      }
    }
    if FetchedAt(fetchColumns, fetchRows, vs, ns) && FetchOk(fetchColumns, fetchRows, versions[n - 1], names[n - 1]) {
      forall k | 0 <= k < n ensures FetchOk(fetchColumns, fetchRows, versions[k], names[k]) {
        if k < n - 1 {
          assert vs[k] == versions[k] && ns[k] == names[k];
        }
      }
    }
  }

  lemma HandedOutPrefix(ledger: Ledger, names: seq<string>, i: nat)
    requires i <= |names|
    ensures HandedOut(ledger, names[..i]) == HandedOut(ledger, names)[..i]
  {
    HandedOutOfPrefix(ledger, names, i);
  }

  lemma AllFetchedOfPrefix(ledger: Ledger, names: seq<string>, fetchColumns: ColumnFetch, fetchRows: RowFetch)
    requires names != []
    ensures AllFetched(ledger, names, fetchColumns, fetchRows) <==>
              && AllFetched(ledger, names[..|names| - 1], fetchColumns, fetchRows)
              && FetchOk(fetchColumns, fetchRows, HandedOut(ledger, names)[|names| - 1], names[|names| - 1])
  {
    HandedOutPrefix(ledger, names, |names| - 1);
    FetchedAtOfPrefix(fetchColumns, fetchRows, HandedOut(ledger, names), names);
  }

  lemma OnePerNameOfPrefix(ledger: Ledger, names: seq<string>, fetchColumns: ColumnFetch,
                           schemas: seq<TableSchema>, last: TableSchema)
    requires names != []
    requires OnePerName(ledger, names[..|names| - 1], fetchColumns, schemas)
    requires fetchColumns(HandedOut(ledger, names)[|names| - 1], names[|names| - 1]) == Some(last)
    ensures OnePerName(ledger, names, fetchColumns, schemas + [last])
  {
    var n := |names|;
    HandedOutOfPrefix(ledger, names, n - 1);
    var all := schemas + [last];
    forall k | 0 <= k < n
      ensures fetchColumns(HandedOut(ledger, names)[k], names[k]) == Some(all[k])
    {
      if k < n - 1 {
        assert all[k] == schemas[k];
        assert names[..n - 1][k] == names[k];
      }
    }
  }

  /** Gathering succeeds exactly when both fetches succeed for every name at the version
      handed out for it; it then yields one schema per name, in request order, each the one
      the column fetch returned, and the ledger has been bumped once per name. */
  lemma {:induction false} GatheredOnePerName(ledger: Ledger, names: seq<string>,
                                              fetchColumns: ColumnFetch, fetchRows: RowFetch)
    ensures Gather(ledger, names, fetchColumns, fetchRows).0.Right? <==> AllFetched(ledger, names, fetchColumns, fetchRows)
    ensures Gather(ledger, names, fetchColumns, fetchRows).0.Right? ==>
              && Gather(ledger, names, fetchColumns, fetchRows).1 == LedgerAfter(ledger, names)
              && OnePerName(ledger, names, fetchColumns, Gather(ledger, names, fetchColumns, fetchRows).0.right)
    decreases |names|
  {
    if names != [] {
      var prefix := names[..|names| - 1];
      GatheredOnePerName(ledger, prefix, fetchColumns, fetchRows);
      AllFetchedOfPrefix(ledger, names, fetchColumns, fetchRows);
      var prev := Gather(ledger, prefix, fetchColumns, fetchRows).0;
      var n := |names|;
      var version := HandedOut(ledger, names)[n - 1];
      if prev.Right? && FetchOk(fetchColumns, fetchRows, version, names[n - 1]) {
        OnePerNameOfPrefix(ledger, names, fetchColumns, prev.right, fetchColumns(version, names[n - 1]).value);
      }
    }
  }

  /** Gathering gave up at the `k`-th name: every earlier name was fetched, the `k`-th was
      not, the response names that table, and the ledger was bumped for the first `k + 1`
      names and no more. */
  ghost predicate FailedFirstAt(ledger: Ledger, names: seq<string>, fetchColumns: ColumnFetch,
                                fetchRows: RowFetch, k: nat)
    requires k < |names|
  {
    && AllFetched(ledger, names[..k], fetchColumns, fetchRows)
    && !FetchOk(fetchColumns, fetchRows, HandedOut(ledger, names)[k], names[k])
    && Gather(ledger, names, fetchColumns, fetchRows)
       == (Left(FetchFailure(fetchColumns, HandedOut(ledger, names)[k], names[k])), LedgerAfter(ledger, names[..k + 1]))
  }

  lemma FailedFirstAtOfPrefix(ledger: Ledger, names: seq<string>, fetchColumns: ColumnFetch,
                              fetchRows: RowFetch, k: nat)
    requires k + 1 < |names|
    requires FailedFirstAt(ledger, names[..|names| - 1], fetchColumns, fetchRows, k)
    ensures FailedFirstAt(ledger, names, fetchColumns, fetchRows, k)
  {
    var prefix := names[..|names| - 1];
    assert prefix[..k] == names[..k];
    HandedOutOfPrefix(ledger, names, |names| - 1);
    FailedGatherOfPrefix(ledger, names, fetchColumns, fetchRows, k,
                         FetchFailure(fetchColumns, HandedOut(ledger, prefix)[k], names[k]));
  }

  lemma FailedGatherOfPrefix(ledger: Ledger, names: seq<string>, fetchColumns: ColumnFetch,
                             fetchRows: RowFetch, k: nat, failure: Response)
    requires k + 1 < |names|
    requires Gather(ledger, names[..|names| - 1], fetchColumns, fetchRows)
             == (Left(failure), LedgerAfter(ledger, names[..|names| - 1][..k + 1]))
    ensures Gather(ledger, names, fetchColumns, fetchRows) == (Left(failure), LedgerAfter(ledger, names[..k + 1]))
  {
    GatherStaysFailed(ledger, names, |names| - 1, fetchColumns, fetchRows);
    assert names[..|names| - 1][..k + 1] == names[..k + 1];
  }

  /** Gathering that got through every name but the last and then failed failed at the last. */
  lemma FailedAtLast(ledger: Ledger, names: seq<string>, fetchColumns: ColumnFetch, fetchRows: RowFetch)
    requires names != []
    requires Gather(ledger, names[..|names| - 1], fetchColumns, fetchRows).0.Right?
    requires Gather(ledger, names, fetchColumns, fetchRows).0.Left?
    ensures FailedFirstAt(ledger, names, fetchColumns, fetchRows, |names| - 1)
  {
    var n := |names|;
    var prefix := names[..n - 1];
    GatheredOnePerName(ledger, prefix, fetchColumns, fetchRows);
    assert HandedOut(ledger, names)[n - 1] == NextVersion(LedgerAfter(ledger, prefix), names[n - 1]);
    assert names[..n] == names;
  }

  /** Gathering that fails failed at some name: the first one whose fetch failed. */
  lemma {:induction false} GatherFailsAtFirstMissingFetch(ledger: Ledger, names: seq<string>,
                                                          fetchColumns: ColumnFetch, fetchRows: RowFetch)
    requires Gather(ledger, names, fetchColumns, fetchRows).0.Left?
    ensures exists k :: 0 <= k < |names| && FailedFirstAt(ledger, names, fetchColumns, fetchRows, k)
    decreases |names|
  {
    var prefix := names[..|names| - 1];
    if Gather(ledger, prefix, fetchColumns, fetchRows).0.Left? {
      GatherFailsAtFirstMissingFetch(ledger, prefix, fetchColumns, fetchRows);
      var k :| 0 <= k < |prefix| && FailedFirstAt(ledger, prefix, fetchColumns, fetchRows, k);
      FailedFirstAtOfPrefix(ledger, names, fetchColumns, fetchRows, k);
    } else {
      FailedAtLast(ledger, names, fetchColumns, fetchRows);
    }
  }

  /** Gathering, successful or not, never takes a version back. */
  lemma {:induction false} GatherLedgerGrows(ledger: Ledger, names: seq<string>,
                                             fetchColumns: ColumnFetch, fetchRows: RowFetch)
    ensures Extends(ledger, Gather(ledger, names, fetchColumns, fetchRows).1)
  {
    GatheredOnePerName(ledger, names, fetchColumns, fetchRows);
    if Gather(ledger, names, fetchColumns, fetchRows).0.Left? {
      GatherFailsAtFirstMissingFetch(ledger, names, fetchColumns, fetchRows);
      var k :| 0 <= k < |names| && FailedFirstAt(ledger, names, fetchColumns, fetchRows, k);
      LedgerOnlyGrows(ledger, names[..k + 1]);
    } else {
      LedgerOnlyGrows(ledger, names);
    }
  }

  // Re-analysis.

  predicate DistinctTableNames(schemas: seq<TableSchema>) {
    DistinctKeys(schemas, TableName)
  }

  /** `newTableSchemaMap`: the fresh schemas keyed by table name. */
  function SchemasByTable(schemas: seq<TableSchema>): (m: map<string, TableSchema>)
    requires DistinctTableNames(schemas)
    ensures forall name :: name in m <==> exists j :: 0 <= j < |schemas| && schemas[j].tableName == name
    ensures forall j :: 0 <= j < |schemas| ==> schemas[j].tableName in m && m[schemas[j].tableName] == schemas[j]
  {
    ToMap(schemas, TableName)
  }

  function TableNames(schemas: seq<TableSchema>): seq<string> {
    seq(|schemas|, k requires 0 <= k < |schemas| => schemas[k].tableName)
  }

  /** The loop that compares each old schema with the fresh one of the same table: an
      exception stops it, otherwise it collects one result per old schema. */
  function CompareAll(olds: seq<TableSchema>, byTable: map<string, TableSchema>)
    : Either<JavaException, seq<AnalysisResult>>
    decreases |olds|
  {
    if olds == [] then Right([])
    else
      var prev := CompareAll(olds[..|olds| - 1], byTable);
      var o := olds[|olds| - 1];
      if prev.Left? then prev
      else if o.tableName !in byTable then Left(NullPointer)
      else if AnalysisThrows(o, byTable[o.tableName]) then Left(DuplicateKey)
      else Right(prev.right + [Compare(o, byTable[o.tableName])])
  }

  lemma {:induction false} CompareAllStaysFailed(olds: seq<TableSchema>, i: nat, byTable: map<string, TableSchema>)
    requires i <= |olds|
    requires CompareAll(olds[..i], byTable).Left?
    ensures CompareAll(olds, byTable) == CompareAll(olds[..i], byTable)
    decreases |olds| - i
  {
    if i < |olds| {
      var prefix := olds[..|olds| - 1];
      assert prefix[..i] == olds[..i];
      CompareAllStaysFailed(prefix, i, byTable);
    } else {
      assert olds[..i] == olds;
    }
  }

  /** One more turn of the comparison loop. */
  lemma CompareAllStep(olds: seq<TableSchema>, i: nat, byTable: map<string, TableSchema>)
    requires i < |olds| && CompareAll(olds[..i], byTable).Right?
    ensures CompareAll(olds[..i + 1], byTable)
            == if olds[i].tableName !in byTable then Left(NullPointer)
               else if AnalysisThrows(olds[i], byTable[olds[i].tableName]) then Left(DuplicateKey)
               else Right(CompareAll(olds[..i], byTable).right + [Compare(olds[i], byTable[olds[i].tableName])])
  {
    assert olds[..i + 1][..i] == olds[..i];
  }

  /** The old schema has a fresh schema of the same table that it can be compared with. */
  predicate Comparable(o: TableSchema, byTable: map<string, TableSchema>) {
    o.tableName in byTable && !AnalysisThrows(o, byTable[o.tableName])
  }

  ghost predicate AllComparable(olds: seq<TableSchema>, byTable: map<string, TableSchema>) {
    forall k :: 0 <= k < |olds| ==> Comparable(olds[k], byTable)
  }

  /** `results` holds, in old order, the comparison of each old schema with the fresh schema
      of the same table. */
  ghost predicate ComparedEach(olds: seq<TableSchema>, byTable: map<string, TableSchema>,
                               results: seq<AnalysisResult>)
    requires AllComparable(olds, byTable)
  {
    && |results| == |olds|
    && forall k :: 0 <= k < |olds| ==> results[k] == Compare(olds[k], byTable[olds[k].tableName])
  }

  lemma ComparedEachAppend(olds: seq<TableSchema>, byTable: map<string, TableSchema>,
                           results: seq<AnalysisResult>)
    requires olds != [] && AllComparable(olds, byTable)
    requires ComparedEach(olds[..|olds| - 1], byTable, results)
    ensures ComparedEach(olds, byTable,
                         results + [Compare(olds[|olds| - 1], byTable[olds[|olds| - 1].tableName])])
  {
    var n := |olds|;
    var all := results + [Compare(olds[n - 1], byTable[olds[n - 1].tableName])];
    forall k | 0 <= k < n ensures all[k] == Compare(olds[k], byTable[olds[k].tableName]) {
      if k < n - 1 {
        assert all[k] == results[k] && olds[..n - 1][k] == olds[k];
      }
    }
  }

  lemma AllComparableOfPrefix(olds: seq<TableSchema>, byTable: map<string, TableSchema>)
    requires olds != []
    ensures AllComparable(olds, byTable) <==>
              AllComparable(olds[..|olds| - 1], byTable) && Comparable(olds[|olds| - 1], byTable)
  {
    var n := |olds|;
    var prefix := olds[..n - 1];
    if AllComparable(olds, byTable) {
      forall k | 0 <= k < n - 1 ensures Comparable(prefix[k], byTable) {
        assert prefix[k] == olds[k];
      }
    }
    if AllComparable(prefix, byTable) && Comparable(olds[n - 1], byTable) {
      forall k | 0 <= k < n ensures Comparable(olds[k], byTable) {
        if k < n - 1 {
          assert prefix[k] == olds[k];
        }
      }
    }
  }

  /** The comparison loop completes exactly when every old table has a fresh schema it can be
      compared with; it then yields, in old order, the comparison of each old schema with the
      fresh schema of the same table. */
  lemma {:induction false} ComparedOnePerOldSchema(olds: seq<TableSchema>, byTable: map<string, TableSchema>)
    ensures CompareAll(olds, byTable).Right? <==> AllComparable(olds, byTable)
    ensures CompareAll(olds, byTable).Right? ==> ComparedEach(olds, byTable, CompareAll(olds, byTable).right)
    decreases |olds|
  {
    if olds != [] {
      var prefix := olds[..|olds| - 1];
      ComparedOnePerOldSchema(prefix, byTable);
      AllComparableOfPrefix(olds, byTable);
      var prev := CompareAll(prefix, byTable);
      if prev.Right? && Comparable(olds[|olds| - 1], byTable) {
        ComparedEachAppend(olds, byTable, prev.right);
      }
    }
  }

  /** The first old schema that cannot be compared decides the exception: NullPointer when
      its table has no fresh schema, DuplicateKey when the fresh schema repeats a column name. */
  lemma CompareAllFirstException(olds: seq<TableSchema>, byTable: map<string, TableSchema>, k: nat)
    requires k < |olds| && AllComparable(olds[..k], byTable) && !Comparable(olds[k], byTable)
    ensures CompareAll(olds, byTable)
            == if olds[k].tableName !in byTable then Left(NullPointer) else Left(DuplicateKey)
  {
    ComparedOnePerOldSchema(olds[..k], byTable);
    CompareAllStep(olds, k, byTable);
    CompareAllStaysFailed(olds, k + 1, byTable);
  }

  /** The response of `performTableSchemaAnalysis` once the fresh batch is gathered and saved. */
  function Reanalysis(olds: seq<TableSchema>, gathered: seq<TableSchema>, newId: string): Response {
    if !DistinctTableNames(gathered) then Thrown(DuplicateKey)
    else
      match CompareAll(olds, SchemasByTable(gathered))
      case Left(e) => Thrown(e)
      case Right(results) => Analysed(newId, results)
  }

  /** Re-analysis throws DuplicateKey on repeated fresh table names; otherwise it answers
      with the new identifier exactly when every old schema can be compared, and then holds
      the comparison of each old schema with the fresh schema of its table, in old order. */
  lemma ReanalysisOutcome(olds: seq<TableSchema>, gathered: seq<TableSchema>, newId: string)
    ensures !DistinctTableNames(gathered) ==> Reanalysis(olds, gathered, newId) == Thrown(DuplicateKey)
    ensures Reanalysis(olds, gathered, newId).Thrown? || Reanalysis(olds, gathered, newId).Analysed?
    ensures DistinctTableNames(gathered) ==>
              var byTable := SchemasByTable(gathered);
              var r := Reanalysis(olds, gathered, newId);
              && (r.Analysed? <==> AllComparable(olds, byTable))
              && (r.Analysed? ==> r.analysisId == newId && ComparedEach(olds, byTable, r.results))
  {
    if DistinctTableNames(gathered) {
      ComparedOnePerOldSchema(olds, SchemasByTable(gathered));
    }
  }

  /** With an honest column fetch, re-gathering the tables of covered schemas yields, per old
      schema and in the same order, a schema of the same table at a strictly higher version. */
  lemma RegatheredVersionsExceedStored(ledger: Ledger, olds: seq<TableSchema>,
                                       fetchColumns: ColumnFetch, fetchRows: RowFetch)
    requires HonestColumnFetch(fetchColumns)
    requires forall k :: 0 <= k < |olds| ==> Covered(olds[k], ledger)
    requires Gather(ledger, TableNames(olds), fetchColumns, fetchRows).0.Right?
    ensures var gathered := Gather(ledger, TableNames(olds), fetchColumns, fetchRows).0.right;
            && |gathered| == |olds|
            && forall k :: 0 <= k < |olds| ==>
                 && gathered[k].tableName == olds[k].tableName
                 && olds[k].version < gathered[k].version
                 && DistinctColumnNames(gathered[k].columns)
  {
    var names := TableNames(olds);
    GatheredOnePerName(ledger, names, fetchColumns, fetchRows);
    LedgerOnlyGrows(ledger, names);
  }

  /** Sequentially, re-analysing a covered batch of distinct tables completes, and no result
      is a VERSION_ERROR: each compares an old schema with a strictly newer one. */
  lemma ReanalysisNeverReportsVersionError(ledger: Ledger, olds: seq<TableSchema>, newId: string,
                                           fetchColumns: ColumnFetch, fetchRows: RowFetch)
    requires HonestColumnFetch(fetchColumns)
    requires forall k :: 0 <= k < |olds| ==> Covered(olds[k], ledger)
    requires DistinctTableNames(olds)
    requires Gather(ledger, TableNames(olds), fetchColumns, fetchRows).0.Right?
    ensures var gathered := Gather(ledger, TableNames(olds), fetchColumns, fetchRows).0.right;
            var r := Reanalysis(olds, gathered, newId);
            && r.Analysed? && r.analysisId == newId && |r.results| == |olds|
            && forall k :: 0 <= k < |olds| ==>
                 && r.results[k].oldVersion == olds[k].version
                 && r.results[k].newVersion > olds[k].version
                 && r.results[k].status != VersionError
  {
    var gathered := Gather(ledger, TableNames(olds), fetchColumns, fetchRows).0.right;
    RegatheredVersionsExceedStored(ledger, olds, fetchColumns, fetchRows);
    assert DistinctTableNames(gathered);
    var byTable := SchemasByTable(gathered);
    ComparedOnePerOldSchema(olds, byTable);
    assert forall k :: 0 <= k < |olds| ==> byTable[olds[k].tableName] == gathered[k];
  }

  /** Gathering keeps every stored schema covered, and with an honest column fetch what it
      gathers is covered too, so saving it keeps the whole store covered. */
  lemma {:induction false} GatherKeepsCoverage(store: Store, ledger: Ledger, names: seq<string>, id: string,
                                               fetchColumns: ColumnFetch, fetchRows: RowFetch)
    ensures var (out, l) := Gather(ledger, names, fetchColumns, fetchRows);
            StoreCovered(store, ledger) ==> StoreCovered(store, l)
    ensures var (out, l) := Gather(ledger, names, fetchColumns, fetchRows);
            HonestColumnFetch(fetchColumns) && StoreCovered(store, ledger) && out.Right? ==>
              StoreCovered(Save(store, id, out.right), l)
  {
    var (out, l) := Gather(ledger, names, fetchColumns, fetchRows);
    GatherLedgerGrows(ledger, names, fetchColumns, fetchRows);
    GatheredOnePerName(ledger, names, fetchColumns, fetchRows);
    if StoreCovered(store, ledger) {
      CoverageKept(store, ledger, l, id, []);
      if HonestColumnFetch(fetchColumns) && out.Right? {
        forall k | 0 <= k < |out.right| ensures Covered(out.right[k], l) {
          HandedOutBelowLedger(ledger, names, k);
        }
        CoverageKept(store, ledger, l, id, out.right);
      }
    }
  }

  /** The loop of `performTableSchemaAnalysis` that compares each old schema with the fresh
      schema of the same table, stopping at the first exception. */
  method CompareWithFresh(oldTableSchemas: seq<TableSchema>, newTableSchemaMap: map<string, TableSchema>)
    returns (out: Either<JavaException, seq<AnalysisResult>>)
    ensures out == CompareAll(oldTableSchemas, newTableSchemaMap)
  {
    var analysisResults: seq<AnalysisResult> := [];
    for i := 0 to |oldTableSchemas|
      invariant CompareAll(oldTableSchemas[..i], newTableSchemaMap) == Right(analysisResults)
    {
      var oldTableSchema := oldTableSchemas[i];
      CompareAllStep(oldTableSchemas, i, newTableSchemaMap);
      if oldTableSchema.tableName !in newTableSchemaMap {
        // performSchemaAnalysis(oldTableSchema, null) dereferences the missing schema
        CompareAllStaysFailed(oldTableSchemas, i + 1, newTableSchemaMap);
        return Left(NullPointer);
      }
      var newTableSchema := newTableSchemaMap[oldTableSchema.tableName];
      if AnalysisThrows(oldTableSchema, newTableSchema) {
        // performSchemaAnalysis meets a repeated column name while building its map
        CompareAllStaysFailed(oldTableSchemas, i + 1, newTableSchemaMap);
        return Left(DuplicateKey);
      }
      var schemaAnalysisResult := PerformSchemaAnalysis(oldTableSchema, newTableSchema);
      analysisResults := analysisResults + [schemaAnalysisResult];
    }
    assert oldTableSchemas[..|oldTableSchemas|] == oldTableSchemas;
    out := Right(analysisResults);
  }

  class AnalyzerController {
    const service: SchemaCompareService

    constructor (service: SchemaCompareService)
      ensures this.service == service
    {
      this.service := service;
    }

    /** `gatherSchema`: bumps the version of each table in request order and fetches its
        schema and rows, giving up at the first fetch that fails. */
    method GatherSchema(tableNames: seq<string>, fetchColumns: ColumnFetch, fetchRows: RowFetch)
      returns (result: Either<Response, seq<TableSchema>>)
      modifies service
      ensures (result, service.tableVersionMap)
              == Gather(old(service.tableVersionMap), tableNames, fetchColumns, fetchRows)
      ensures service.gatheredSchemas == old(service.gatheredSchemas)
    {
      var tableSchemas: seq<TableSchema> := [];
      for i := 0 to |tableNames|
        invariant (Right(tableSchemas), service.tableVersionMap)
                  == Gather(old(service.tableVersionMap), tableNames[..i], fetchColumns, fetchRows)
        invariant service.gatheredSchemas == old(service.gatheredSchemas)
      {
        var tableName := tableNames[i];
        assert tableNames[..i + 1][..i] == tableNames[..i];
        var tableVersion := service.GetAndIncCurrentTableVersion(tableName);
        var tableSchemaOptional := fetchColumns(tableVersion, tableName);
        if tableSchemaOptional.None? {
          result := Left(Failure(InternalError, "Failed to fetch schema for table: " + tableName));
          GatherStaysFailed(old(service.tableVersionMap), tableNames, i + 1, fetchColumns, fetchRows);
          return;
        }
        var schema := tableSchemaOptional.value;
        var tableSchemaOptionalRows := fetchRows(tableName, schema);
        if tableSchemaOptionalRows.None? {
          result := Left(Failure(InternalError, "Failed to fetch rows for table: " + tableName));
          GatherStaysFailed(old(service.tableVersionMap), tableNames, i + 1, fetchColumns, fetchRows);
          return;
        }
        tableSchemas := tableSchemas + [schema];
      }
      assert tableNames[..|tableNames|] == tableNames;
      result := Right(tableSchemas);
    }

    /** `gatherTablesSchemas`, given the table names of the request: gathers them and, only
        on success, saves the batch under a fresh identifier. Whether the save happened is
        not looked at. */
    method GatherTablesSchemas(tableNames: seq<string>, draws: seq<nat>,
                               fetchColumns: ColumnFetch, fetchRows: RowFetch)
      returns (response: Response)
      requires |draws| == IdLength
      modifies service
      ensures var (out, l) := Gather(old(service.tableVersionMap), tableNames, fetchColumns, fetchRows);
              && service.tableVersionMap == l
              && (out.Left? ==> response == out.left && service.gatheredSchemas == old(service.gatheredSchemas))
              && (out.Right? ==>
                    && response == Gathered(GenerateRandomId(draws))
                    && service.gatheredSchemas
                       == Save(old(service.gatheredSchemas), GenerateRandomId(draws), out.right))
      ensures HonestColumnFetch(fetchColumns) && old(service.VersionsCovered()) ==> service.VersionsCovered()
    {
      var analysisId := GenerateRandomId(draws);
      GatherKeepsCoverage(service.gatheredSchemas, service.tableVersionMap, tableNames, analysisId,
                          fetchColumns, fetchRows);
      var result := GatherSchema(tableNames, fetchColumns, fetchRows);
      if result.Left? {
        return result.left;
      }
      var tableSchemas := result.right;
      var _ := service.SaveSchemas(analysisId, tableSchemas);
      response := Gathered(analysisId);
    }

    /** `performTableSchemaAnalysis`: re-gathers the tables of a stored batch, saves the fresh
        batch under a new identifier and compares each old schema with the fresh schema of
        the same table. */
    method PerformTableSchemaAnalysis(oldAnalysisId: string, draws: seq<nat>,
                                      fetchColumns: ColumnFetch, fetchRows: RowFetch)
      returns (response: Response)
      requires |draws| == IdLength
      modifies service
      ensures var olds := Lookup(old(service.gatheredSchemas), oldAnalysisId);
              olds == [] ==>
                && response == Failure(DataNotFound, "Failed to fetch data for analysisId: " + oldAnalysisId)
                && service.tableVersionMap == old(service.tableVersionMap)
                && service.gatheredSchemas == old(service.gatheredSchemas)
      ensures var olds := Lookup(old(service.gatheredSchemas), oldAnalysisId);
              var newId := GenerateRandomId(draws);
              var gather := Gather(old(service.tableVersionMap), TableNames(olds), fetchColumns, fetchRows);
              var out := gather.0;
              olds != [] ==>
                && service.tableVersionMap == gather.1
                && (out.Left? ==> response == out.left && service.gatheredSchemas == old(service.gatheredSchemas))
                && (out.Right? ==>
                      && service.gatheredSchemas == Save(old(service.gatheredSchemas), newId, out.right)
                      && response == Reanalysis(olds, out.right, newId))
      ensures HonestColumnFetch(fetchColumns) && old(service.VersionsCovered()) ==> service.VersionsCovered()
      ensures HonestColumnFetch(fetchColumns) && old(service.VersionsCovered())
              && DistinctTableNames(Lookup(old(service.gatheredSchemas), oldAnalysisId)) ==>
                && !response.Thrown?
                && (response.Analysed? ==>
                      forall k :: 0 <= k < |response.results| ==> response.results[k].status != VersionError)
    {
      var newAnalysisId := GenerateRandomId(draws);
      var oldTableSchemas := service.GetSchemasForAnalysis(oldAnalysisId);
      if |oldTableSchemas| == 0 {
        return Failure(DataNotFound, "Failed to fetch data for analysisId: " + oldAnalysisId);
      }
      var tableNames := TableNames(oldTableSchemas);
      GatherKeepsCoverage(service.gatheredSchemas, service.tableVersionMap, tableNames, newAnalysisId,
                          fetchColumns, fetchRows);
      if Gather(service.tableVersionMap, tableNames, fetchColumns, fetchRows).0.Right? {
        ReanalysisCovered(service, oldAnalysisId, newAnalysisId, fetchColumns, fetchRows);
      }
      var result := GatherSchema(tableNames, fetchColumns, fetchRows);
      if result.Left? {
        return result.left;
      }
      response := SaveAndCompare(oldTableSchemas, newAnalysisId, result.right);
    }

    /** The end of `performTableSchemaAnalysis`, once the fresh batch is gathered: saves it
        under the new identifier, keys it by table name and compares each old schema with
        the fresh schema of the same table. */
    method SaveAndCompare(oldTableSchemas: seq<TableSchema>, newAnalysisId: string,
                          newTableSchemas: seq<TableSchema>)
      returns (response: Response)
      modifies service`gatheredSchemas
      ensures service.gatheredSchemas == Save(old(service.gatheredSchemas), newAnalysisId, newTableSchemas)
      ensures response == Reanalysis(oldTableSchemas, newTableSchemas, newAnalysisId)
    {
      var _ := service.SaveSchemas(newAnalysisId, newTableSchemas);
      if !DistinctTableNames(newTableSchemas) {
        return Thrown(DuplicateKey);
      }
      var newTableSchemaMap := SchemasByTable(newTableSchemas);
      var compared := CompareWithFresh(oldTableSchemas, newTableSchemaMap);
      match compared
      case Left(e) =>
        response := Thrown(e);
      case Right(analysisResults) =>
        response := Analysed(newAnalysisId, analysisResults);
    }
  }

  /** The global property for one re-analysis, stated on the service's state before it. */
  lemma ReanalysisCovered(service: SchemaCompareService, oldAnalysisId: string, newId: string,
                          fetchColumns: ColumnFetch, fetchRows: RowFetch)
    requires Gather(service.tableVersionMap, TableNames(Lookup(service.gatheredSchemas, oldAnalysisId)),
                    fetchColumns, fetchRows).0.Right?
    ensures var olds := Lookup(service.gatheredSchemas, oldAnalysisId);
            var gathered := Gather(service.tableVersionMap, TableNames(olds), fetchColumns, fetchRows).0.right;
            HonestColumnFetch(fetchColumns) && service.VersionsCovered() && DistinctTableNames(olds) ==>
              && Reanalysis(olds, gathered, newId).Analysed?
              && forall k :: 0 <= k < |Reanalysis(olds, gathered, newId).results| ==>
                   Reanalysis(olds, gathered, newId).results[k].status != VersionError
  {
    var olds := Lookup(service.gatheredSchemas, oldAnalysisId);
    if HonestColumnFetch(fetchColumns) && service.VersionsCovered() && DistinctTableNames(olds) {
      if oldAnalysisId in service.gatheredSchemas {
        assert forall k :: 0 <= k < |olds| ==> Covered(olds[k], service.tableVersionMap);
      }
      ReanalysisNeverReportsVersionError(service.tableVersionMap, olds, newId, fetchColumns, fetchRows);
    }
  }
}
