/** The values the schema comparison passes around: columns, table schemas, the outcome
    of one comparison and the responses of the analyzer controller. */
module SchemaModel {

  datatype Option<+T> = None | Some(value: T)

  /** The two-sided result `gatherSchema` returns: a response to give up with, or the gathered value. */
  datatype Either<+L, +R> = Left(left: L) | Right(right: R)

  /** A column of a table, identified by its name within the table. */
  datatype Column = Column(name: string, dataType: string)

  /** The schema of one table as captured at a given version. The rows that the row fetch
      attaches are not part of it: nothing in the comparison reads them. */
  datatype TableSchema = TableSchema(tableName: string, version: int, columns: seq<Column>)

  datatype SchemaUpdateStatus = VersionError | NoChanges | Updated

  /** The outcome of comparing two captures of one table. */
  datatype AnalysisResult = AnalysisResult(
    oldVersion: int,
    newVersion: int,
    status: SchemaUpdateStatus,
    addedColumns: seq<Column>,
    deletedColumns: seq<Column>,
    changedTypeColumns: seq<Column>)

  /** The error statuses the controller reports. */
  datatype OperationStatus = DataNotFound | InternalError

  /** The exceptions that escape the core and reach the controller's outer handler. */
  datatype JavaException =
    | DuplicateKey  // Collectors.toMap met the same key twice
    | NullPointer   // a schema was compared against a missing one

  /** The controller's answers. */
  datatype Response =
    | Gathered(analysisId: string)
    | Analysed(analysisId: string, results: seq<AnalysisResult>)
    | Failure(status: OperationStatus, message: string)
    | Thrown(exception: JavaException)

  function ColumnName(c: Column): string { c.name }

  function TableName(s: TableSchema): string { s.tableName }
}
