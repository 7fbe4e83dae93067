/** The exceptions thrown by the table-schema engine, one constructor per distinct cause. */
module Errors {
  import opened Jdbc

  datatype Error =
    /** IllegalArgumentException: the entity class carries no Table annotation. */
    | NotATable
    /** "No getter for column: <name>". */
    | NoGetter(column: string)
    /** "Column not found [<column>] on table [<table>]". */
    | ColumnNotFound(column: string, table: string)
    /** "Error getting record value!": the getter could not be invoked on the record (the message
        names no column). */
    | GetFailed
    /** "Error setting value [<value>] on column [<column>]": no setter, or it could not be invoked. */
    | SetFailed(value: Value, column: string)
    /** "Error setting column [<column>] with value [<value>]": the driver could not coerce the value. */
    | BindFailed(column: string, value: Value)
    /** NullPointerException: the table has no version column. */
    | NoVersionColumn
    /** The version column's value is not an Integer (ClassCastException or unboxing a null). */
    | VersionNotInt(value: Value)
    /** "Insert failed!": the insert did not affect exactly one row. */
    | InsertFailed
    /** "Update failed!": the update did not affect exactly one row. */
    | UpdateFailed
    /** "More generated keys than columns!". */
    | TooManyKeys
    /** The RuntimeException built from the friendly error message: table, driver, rendered SQL and
        the bound parameters, wrapping the original cause. */
    | PersistFailed(table: string, driver: string, sql: string, params: seq<Binding>, cause: Error)
    /** "Error getting error!": building the friendly message failed in turn; the original cause is lost. */
    | ReportFailed(cause: Error)
    /** NotImplementedException from a driver without catalog support. */
    | NotImplemented
}
