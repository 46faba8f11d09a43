/** The comparison of two captures of one table (`performSchemaAnalysis`): a pure
    specification `Compare`, the loop that computes it, and what the comparison means. */
module SchemaDiff {
  import opened SchemaModel
  import opened Collections
  import opened Text

  predicate DistinctColumnNames(cols: seq<Column>) {
    DistinctKeys(cols, ColumnName)
  }

  predicate HasColumnNamed(cols: seq<Column>, name: string) {
    exists j :: 0 <= j < |cols| && cols[j].name == name
  }

  /** The new schema's columns keyed by name (`newColumnMap`). */
  function ColumnsByName(cols: seq<Column>): (m: map<string, Column>)
    requires DistinctColumnNames(cols)
    ensures forall name :: name in m <==> HasColumnNamed(cols, name)
    ensures forall j :: 0 <= j < |cols| ==> cols[j].name in m && m[cols[j].name] == cols[j]
  {
    ToMap(cols, ColumnName)
  }

  /** Building `newColumnMap` throws on a repeated column name; it is built only when the
      versions increase. */
  predicate AnalysisThrows(oldSchema: TableSchema, newSchema: TableSchema) {
    oldSchema.version < newSchema.version && !DistinctColumnNames(newSchema.columns)
  }

  /** The old columns the loop over `oldCols` files as deleted. */
  function DeletedColumns(oldCols: seq<Column>, byName: map<string, Column>): seq<Column>
    decreases |oldCols|
  {
    if oldCols == [] then []
    else
      var c := oldCols[|oldCols| - 1];
      DeletedColumns(oldCols[..|oldCols| - 1], byName) + (if c.name in byName then [] else [c])
  }

  /** The new-side columns the loop over `oldCols` files as changed in type. */
  function ChangedTypeColumns(oldCols: seq<Column>, byName: map<string, Column>): seq<Column>
    decreases |oldCols|
  {
    if oldCols == [] then []
    else
      var c := oldCols[|oldCols| - 1];
      ChangedTypeColumns(oldCols[..|oldCols| - 1], byName)
        + (if c.name in byName && !EqualsIgnoreCase(byName[c.name].dataType, c.dataType)
           then [byName[c.name]] else [])
  }

  /** The names the loop over `oldCols` adds to `preservedColumnNames`. */
  function PreservedNames(oldCols: seq<Column>, byName: map<string, Column>): set<string>
    decreases |oldCols|
  {
    if oldCols == [] then {}
    else
      var c := oldCols[|oldCols| - 1];
      PreservedNames(oldCols[..|oldCols| - 1], byName) + (if c.name in byName then {c.name} else {})
  }

  /** The deleted columns are old columns whose name the map lacks, and every such old
      column is among them. */
  lemma {:induction false} DeletedColumnsMembers(oldCols: seq<Column>, byName: map<string, Column>)
    ensures |DeletedColumns(oldCols, byName)| <= |oldCols|
    ensures forall c :: c in DeletedColumns(oldCols, byName) <==> c in oldCols && c.name !in byName
    decreases |oldCols|
  {
    if oldCols != [] {
      var prefix := oldCols[..|oldCols| - 1];
      DeletedColumnsMembers(prefix, byName);
      assert oldCols == prefix + [oldCols[|oldCols| - 1]];
    }
  }

  /** Each changed-type column is the map's column for the name of some old column whose
      type it does not match ignoring case; there are at most as many as old columns. */
  lemma {:induction false} ChangedTypeColumnsMembers(oldCols: seq<Column>, byName: map<string, Column>)
    ensures |ChangedTypeColumns(oldCols, byName)| <= |oldCols|
    ensures forall d :: d in ChangedTypeColumns(oldCols, byName) ==>
              exists c :: c in oldCols && c.name in byName && byName[c.name] == d
                          && !EqualsIgnoreCase(d.dataType, c.dataType)
    decreases |oldCols|
  {
    if oldCols != [] {
      var prefix := oldCols[..|oldCols| - 1];
      ChangedTypeColumnsMembers(prefix, byName);
      assert oldCols == prefix + [oldCols[|oldCols| - 1]];
      forall d | d in ChangedTypeColumns(oldCols, byName)
        ensures exists c :: c in oldCols && c.name in byName && byName[c.name] == d
                            && !EqualsIgnoreCase(d.dataType, c.dataType)
      {
        if d in ChangedTypeColumns(prefix, byName) {
          var c :| c in prefix && c.name in byName && byName[c.name] == d
                   && !EqualsIgnoreCase(d.dataType, c.dataType);
          assert c in oldCols;
        } else {
          assert oldCols[|oldCols| - 1] in oldCols;
        }
      }
    }
  }

  /** The preserved names are exactly the old column names the map has. */
  lemma {:induction false} PreservedNamesMembers(oldCols: seq<Column>, byName: map<string, Column>)
    ensures forall name :: name in PreservedNames(oldCols, byName) <==>
              name in byName && exists c :: c in oldCols && c.name == name
    decreases |oldCols|
  {
    if oldCols != [] {
      var prefix := oldCols[..|oldCols| - 1];
      PreservedNamesMembers(prefix, byName);
      assert oldCols == prefix + [oldCols[|oldCols| - 1]];
    }
  }

  /** `preservedColumnNames.contains(c)` with `c` a Column: a set of strings holds no
      Column, so the test fails for every column and every set (taking `Column.equals` to
      accept only Columns, as its use at this call suggests). */
  predicate NameSetContainsColumn(names: set<string>, c: Column) {
    false
  }

  /** `addedColumns` as the source computes it. */
  function AddedColumns(newCols: seq<Column>, preserved: set<string>): (r: seq<Column>)
    ensures forall c :: c in r <==> c in newCols && NameSetContainsColumn(preserved, c)
  {
    Filter(newCols, (c: Column) => NameSetContainsColumn(preserved, c))
  }

  lemma {:induction false} AddedColumnsAlwaysEmpty(newCols: seq<Column>, preserved: set<string>)
    ensures AddedColumns(newCols, preserved) == []
    decreases |newCols|
  {
    if newCols != [] {
      AddedColumnsAlwaysEmpty(newCols[..|newCols| - 1], preserved);
    }
  }

  /** The comparison `performSchemaAnalysis` performs. */
  function Compare(oldSchema: TableSchema, newSchema: TableSchema): (r: AnalysisResult)
    requires !AnalysisThrows(oldSchema, newSchema)
    ensures r.oldVersion == oldSchema.version && r.newVersion == newSchema.version
    ensures r.status == VersionError <==> oldSchema.version > newSchema.version
    ensures oldSchema.version == newSchema.version ==> r.status == NoChanges
    ensures oldSchema.version >= newSchema.version ==>
              r.deletedColumns == [] && r.changedTypeColumns == []
    ensures r.addedColumns == []
    ensures r.status == NoChanges <==>
              oldSchema.version == newSchema.version
              || (oldSchema.version < newSchema.version
                  && r.deletedColumns == [] && r.changedTypeColumns == [])
  {
    if oldSchema.version > newSchema.version then
      AnalysisResult(oldSchema.version, newSchema.version, VersionError, [], [], [])
    else if oldSchema.version == newSchema.version then
      AnalysisResult(oldSchema.version, newSchema.version, NoChanges, [], [], [])
    else
      var byName := ColumnsByName(newSchema.columns);
      var deleted := DeletedColumns(oldSchema.columns, byName);
      var changed := ChangedTypeColumns(oldSchema.columns, byName);
      var added := AddedColumns(newSchema.columns, PreservedNames(oldSchema.columns, byName));
      AddedColumnsAlwaysEmpty(newSchema.columns, PreservedNames(oldSchema.columns, byName));
      var status := if added == [] && deleted == [] && changed == [] then NoChanges else Updated;
      AnalysisResult(oldSchema.version, newSchema.version, status, added, deleted, changed)
  }

  /** `performSchemaAnalysis`, with its loop over the old columns. */
  method PerformSchemaAnalysis(oldSchema: TableSchema, newSchema: TableSchema) returns (r: AnalysisResult)
    requires !AnalysisThrows(oldSchema, newSchema)
    ensures r == Compare(oldSchema, newSchema)
  {
    if oldSchema.version > newSchema.version {
      return AnalysisResult(oldSchema.version, newSchema.version, VersionError, [], [], []);
    }
    if oldSchema.version == newSchema.version {
      return AnalysisResult(oldSchema.version, newSchema.version, NoChanges, [], [], []);
    }
    var newColumnMap := ColumnsByName(newSchema.columns);
    var deletedColumns, changedTypeColumns, preservedColumnNames := ScanOldColumns(oldSchema.columns, newColumnMap);
    var addedColumns := AddedColumns(newSchema.columns, preservedColumnNames);
    var status := Updated;
    if addedColumns == [] && deletedColumns == [] && changedTypeColumns == [] {
      status := NoChanges;
    }
    r := AnalysisResult(oldSchema.version, newSchema.version, status,
                        addedColumns, deletedColumns, changedTypeColumns);
  }

  /** The loop of `performSchemaAnalysis` over the old columns, against `newColumnMap`. */
  method ScanOldColumns(oldColumns: seq<Column>, newColumnMap: map<string, Column>)
    returns (deletedColumns: seq<Column>, changedTypeColumns: seq<Column>, preservedColumnNames: set<string>)
    ensures deletedColumns == DeletedColumns(oldColumns, newColumnMap)
    ensures changedTypeColumns == ChangedTypeColumns(oldColumns, newColumnMap)
    ensures preservedColumnNames == PreservedNames(oldColumns, newColumnMap)
  {
    deletedColumns, changedTypeColumns, preservedColumnNames := [], [], {};
    for i := 0 to |oldColumns|
      invariant deletedColumns == DeletedColumns(oldColumns[..i], newColumnMap)
      invariant changedTypeColumns == ChangedTypeColumns(oldColumns[..i], newColumnMap)
      invariant preservedColumnNames == PreservedNames(oldColumns[..i], newColumnMap)
    {
      var oldColumn := oldColumns[i];
      assert oldColumns[..i + 1][..i] == oldColumns[..i];
      if oldColumn.name !in newColumnMap {
        deletedColumns := deletedColumns + [oldColumn];
      } else {
        var newColumn := newColumnMap[oldColumn.name];
        if !EqualsIgnoreCase(newColumn.dataType, oldColumn.dataType) {
          changedTypeColumns := changedTypeColumns + [newColumn];
        }
        preservedColumnNames := preservedColumnNames + {oldColumn.name};
      }
    }
    assert oldColumns[..|oldColumns|] == oldColumns;
  }

  // What the comparison means, stated without the name map.

  /** Some new column has the old column's name and a different type, ignoring case. */
  predicate Retyped(newCols: seq<Column>, c: Column) {
    exists d :: d in newCols && d.name == c.name && !EqualsIgnoreCase(d.dataType, c.dataType)
  }

  /** Some new column has the old column's name and the same type, ignoring case. */
  predicate Survives(newCols: seq<Column>, c: Column) {
    exists d :: d in newCols && d.name == c.name && EqualsIgnoreCase(d.dataType, c.dataType)
  }

  lemma {:induction false} DeletedAreMissingByName(oldCols: seq<Column>, newCols: seq<Column>)
    requires DistinctColumnNames(newCols)
    ensures DeletedColumns(oldCols, ColumnsByName(newCols))
            == Filter(oldCols, (c: Column) => !HasColumnNamed(newCols, c.name))
    decreases |oldCols|
  {
    if oldCols != [] {
      DeletedAreMissingByName(oldCols[..|oldCols| - 1], newCols);
    }
  }

  /** `changed[k]` is the new-side column of `retyped[k]`: a column of `newCols` with the
      same name and a type that differs ignoring case. */
  ghost predicate NewSideOf(newCols: seq<Column>, changed: seq<Column>, retyped: seq<Column>) {
    && |changed| == |retyped|
    && forall k :: 0 <= k < |changed| ==>
         && changed[k] in newCols
         && changed[k].name == retyped[k].name
         && !EqualsIgnoreCase(changed[k].dataType, retyped[k].dataType)
  }

  lemma NewSideOfAppend(newCols: seq<Column>, changed: seq<Column>, retyped: seq<Column>, d: Column, c: Column)
    requires NewSideOf(newCols, changed, retyped)
    requires d in newCols && d.name == c.name && !EqualsIgnoreCase(d.dataType, c.dataType)
    ensures NewSideOf(newCols, changed + [d], retyped + [c])
  {
    var changed', retyped' := changed + [d], retyped + [c];
    forall k | 0 <= k < |changed'|
      ensures && changed'[k] in newCols
              && changed'[k].name == retyped'[k].name
              && !EqualsIgnoreCase(changed'[k].dataType, retyped'[k].dataType)
    {
      if k < |changed| {
        assert changed'[k] == changed[k] && retyped'[k] == retyped[k];
      }
    }
  }

  /** Through the name map: a column is retyped exactly when the map has its name with a
      type that differs ignoring case, and what the map holds is a column of `newCols`. */
  lemma RetypedByName(newCols: seq<Column>, c: Column)
    requires DistinctColumnNames(newCols)
    ensures var byName := ColumnsByName(newCols);
            && (c.name in byName ==> byName[c.name] in newCols && byName[c.name].name == c.name)
            && (Retyped(newCols, c) <==>
                  c.name in byName && !EqualsIgnoreCase(byName[c.name].dataType, c.dataType))
  {
    var byName := ColumnsByName(newCols);
    if c.name in byName {
      var j :| 0 <= j < |newCols| && newCols[j].name == c.name;
      assert byName[c.name] == newCols[j];
      if Retyped(newCols, c) {
        var d :| d in newCols && d.name == c.name && !EqualsIgnoreCase(d.dataType, c.dataType);
        var jd :| 0 <= jd < |newCols| && newCols[jd] == d;
        assert byName[d.name] == d;
      }
    }
  }

  lemma {:induction false} ChangedAreNewSideOfRetyped(oldCols: seq<Column>, newCols: seq<Column>)
    requires DistinctColumnNames(newCols)
    ensures NewSideOf(newCols, ChangedTypeColumns(oldCols, ColumnsByName(newCols)),
                      Filter(oldCols, (c: Column) => Retyped(newCols, c)))
    decreases |oldCols|
  {
    if oldCols != [] {
      var prefix, c := oldCols[..|oldCols| - 1], oldCols[|oldCols| - 1];
      ChangedAreNewSideOfRetyped(prefix, newCols);
      RetypedByName(newCols, c);
      var byName := ColumnsByName(newCols);
      var changed := ChangedTypeColumns(prefix, byName);
      var retyped := Filter(prefix, (c: Column) => Retyped(newCols, c));
      if Retyped(newCols, c) {
        assert ChangedTypeColumns(oldCols, byName) == changed + [byName[c.name]];
        assert Filter(oldCols, (c: Column) => Retyped(newCols, c)) == retyped + [c];
        NewSideOfAppend(newCols, changed, retyped, byName[c.name], c);
      } else {
        assert ChangedTypeColumns(oldCols, byName) == changed;
        assert Filter(oldCols, (c: Column) => Retyped(newCols, c)) == retyped;
      }
    }
  }

  /** When the versions increase, deleted columns are exactly the old columns, in old order,
      whose name the new schema lacks. */
  lemma DeletedColumnsExactly(oldSchema: TableSchema, newSchema: TableSchema)
    requires oldSchema.version < newSchema.version && DistinctColumnNames(newSchema.columns)
    ensures Compare(oldSchema, newSchema).deletedColumns
            == Filter(oldSchema.columns, (c: Column) => !HasColumnNamed(newSchema.columns, c.name))
  {
    DeletedAreMissingByName(oldSchema.columns, newSchema.columns);
  }

  /** When the versions increase, the k-th changed-type column is the new-side column of the
      k-th old column (in old order) whose type differs ignoring case. */
  lemma ChangedTypeColumnsExactly(oldSchema: TableSchema, newSchema: TableSchema)
    requires oldSchema.version < newSchema.version && DistinctColumnNames(newSchema.columns)
    ensures var changed := Compare(oldSchema, newSchema).changedTypeColumns;
            var retyped := Filter(oldSchema.columns, (c: Column) => Retyped(newSchema.columns, c));
            && |changed| == |retyped|
            && forall k :: 0 <= k < |changed| ==>
                 && changed[k] in newSchema.columns
                 && changed[k].name == retyped[k].name
                 && !EqualsIgnoreCase(changed[k].dataType, retyped[k].dataType)
  {
    ChangedAreNewSideOfRetyped(oldSchema.columns, newSchema.columns);
  }

  /** When the versions increase, the status is NO_CHANGES exactly when every old column is
      still there with the same type ignoring case. Columns that only the new schema has do
      not count, since `addedColumns` is always empty. */
  lemma NoChangesIffEveryOldColumnSurvives(oldSchema: TableSchema, newSchema: TableSchema)
    requires oldSchema.version < newSchema.version && DistinctColumnNames(newSchema.columns)
    ensures Compare(oldSchema, newSchema).status == NoChanges
            <==> forall c :: c in oldSchema.columns ==> Survives(newSchema.columns, c)
  {
    var newCols := newSchema.columns;
    var r := Compare(oldSchema, newSchema);
    DeletedColumnsExactly(oldSchema, newSchema);
    ChangedTypeColumnsExactly(oldSchema, newSchema);
    var missing := Filter(oldSchema.columns, (c: Column) => !HasColumnNamed(newCols, c.name));
    var retyped := Filter(oldSchema.columns, (c: Column) => Retyped(newCols, c));
    if r.status == NoChanges {
      forall c | c in oldSchema.columns ensures Survives(newCols, c) {
        assert c !in missing;
        assert c !in retyped;
        var j :| 0 <= j < |newCols| && newCols[j].name == c.name;
        assert newCols[j] in newCols;
      }
    } else {
      assert r.deletedColumns != [] || r.changedTypeColumns != [];
      if r.deletedColumns != [] {
        var c := r.deletedColumns[0];
        assert c in missing;
        assert !Survives(newCols, c);
      } else {
        var c := retyped[0];
        assert c in retyped;
        assert !Survives(newCols, c);
      }
    }
  }

  // What the name `addedColumns` promises, which the source does not compute.

  /** Columns of the new schema whose name the old schema lacks: what the name
      `addedColumns` promises; it is not what the source computes. */
  function IntendedAddedColumns(oldCols: seq<Column>, newCols: seq<Column>): (r: seq<Column>)
    ensures forall c :: c in r <==> c in newCols && !HasColumnNamed(oldCols, c.name)
  {
    Filter(newCols, (c: Column) => !HasColumnNamed(oldCols, c.name))
  }

  /** A column that only the new schema has goes unreported: where every old column
      survives, the source says NO_CHANGES with no added columns although the intended
      added columns are not empty. */
  lemma NewOnlyColumnsGoUnreported(oldSchema: TableSchema, newSchema: TableSchema, extra: Column)
    requires oldSchema.version < newSchema.version && DistinctColumnNames(newSchema.columns)
    requires forall c :: c in oldSchema.columns ==> Survives(newSchema.columns, c)
    requires extra in newSchema.columns && !HasColumnNamed(oldSchema.columns, extra.name)
    ensures extra in IntendedAddedColumns(oldSchema.columns, newSchema.columns)
    ensures Compare(oldSchema, newSchema).status == NoChanges
    ensures Compare(oldSchema, newSchema).addedColumns == []
  {
    NoChangesIffEveryOldColumnSurvives(oldSchema, newSchema);
  }
}
