/** DbDriver, the dialect capability interface, and its Oracle variant. */
module Drivers {
  import opened Wrappers
  import opened Jdbc
  import opened Errors
  import opened SortedMaps
  import opened Columns

  /** The DbDriver operations whose code is not part of this model, taken as given functions:
      SQL rendering for a column map and table name, and value coercion (None when it throws). */
  datatype Rendering = Rendering(
    writeInsertQuery: (seq<Entry<ColumnSchema>>, string) -> string,
    writeUpdateQuery: (seq<Entry<ColumnSchema>>, string, seq<ColumnSchema>) -> string,
    javaToSql: Value -> Option<Value>)

  /** A DbDriver: identity, identifier quotes, multiple-active-result-sets support, the catalog
      operations and the rendering operations. */
  datatype Driver = Driver(
    name: string,
    se: char,
    ee: char,
    mars: bool,
    getTableNames: Connection -> Result<seq<string>, Error>,
    dropTables: Connection -> Outcome<Error>,
    rendering: Rendering)

  /** OracleDriver: answers its identity, quote and mars queries with constants and fails both
      catalog operations with NotImplemented. */
  function OracleDriver(rendering: Rendering): (d: Driver)
    ensures d.name == "oracle"
    ensures d.se == '"' && d.ee == d.se
    ensures d.mars
    ensures forall con :: d.getTableNames(con) == Failure(NotImplemented)
    ensures forall con :: d.dropTables(con) == Fail(NotImplemented)
    ensures d.rendering == rendering
  {
    Driver("oracle", '"', '"', true,
           con => Failure(NotImplemented),
           con => Fail(NotImplemented),
           rendering)
  }
}
