/** TableSchema: the per-entity table description derived from its annotated accessors, its index
    and relation registry, and the insert / update / persist operations on a record. */
module Tables {
  import opened Wrappers
  import opened Jdbc
  import opened Errors
  import opened Strings
  import opened SortedMaps
  import opened Columns
  import opened Drivers
  import opened Partitions
  import opened Annotations
  import opened AnnotationProperties

  /** An entity class: its Table annotation's name, if it has one, and its `getMethods()`. */
  datatype EntityClass = EntityClass(table: Option<string>, methods: seq<MethodInfo>)

  /** An index over an ordered list of columns. */
  class IndexSchema {
    const columns: seq<ColumnSchema>

    constructor (columns: seq<ColumnSchema>)
      ensures this.columns == columns
    {
      this.columns := columns;
    }

    /** `matches(cols)`: the index is over exactly these columns, in this order. */
    predicate Matches(cols: seq<ColumnSchema>)
    {
      columns == cols
    }
  }

  /** A parent/child relation; only its primary index takes part in this model. */
  class RelationSchema {
    const primaryIndex: IndexSchema

    constructor (primaryIndex: IndexSchema)
      ensures this.primaryIndex == primaryIndex
    {
      this.primaryIndex := primaryIndex;
    }
  }

  /** The position of the first index in `idxs` that matches `cols`, if any. */
  function FirstMatch(idxs: seq<IndexSchema>, cols: seq<ColumnSchema>): (r: Option<nat>)
    ensures r.None? <==> forall i :: 0 <= i < |idxs| ==> !idxs[i].Matches(cols)
    ensures r.Some? ==> r.value < |idxs| && idxs[r.value].Matches(cols)
    ensures r.Some? ==> forall i :: 0 <= i < r.value ==> !idxs[i].Matches(cols)
  {
    if idxs == [] then None
    else if idxs[0].Matches(cols) then Some(0)
    else match FirstMatch(idxs[1..], cols)
      case None => None
      case Some(i) => Some(i + 1)
  }

  /** One executed statement: its SQL and the parameters bound to it. */
  datatype Statement = Statement(sql: string, params: seq<Binding>)

  /** What an operation on a record does: how it ends, the record's state afterwards, and the
      statement it executed, if it got that far. */
  datatype Effect = Effect(outcome: Outcome<Error>, fields: Fields, executed: Option<Statement>)

  /** The value `setParm` binds for a column: the getter's answer coerced by the driver; a value
      the driver cannot coerce is reported naming the column and the value. */
  function Param(col: ColumnSchema, fields: Fields, javaToSql: Value -> Option<Value>): Result<Value, Error>
  {
    match Read(col, fields)
    case Failure(e) => Failure(e)
    case Success(v) =>
      match javaToSql(v)
      case None => Failure(BindFailed(col.name, v))
      case Some(s) => Success(s)
  }

  /** `setParm` over a list of columns from position `start`, one column after the other. */
  function Bind(cols: seq<ColumnSchema>, fields: Fields, start: int, javaToSql: Value -> Option<Value>)
    : Result<seq<Binding>, Error>
  {
    if cols == [] then Success([])
    else
      match Bind(cols[..|cols| - 1], fields, start, javaToSql)
      case Failure(e) => Failure(e)
      case Success(ps) =>
        match Param(cols[|cols| - 1], fields, javaToSql)
        case Failure(e) => Failure(e)
        case Success(v) => Success(ps + [Binding(start + |cols| - 1, v)])
  }

  /** Binding succeeds exactly when every column can be bound, and then the i-th column is bound
      at position `start + i`; otherwise it fails with the error of the first column that cannot
      be bound. */
  lemma {:induction false} BindInOrder(cols: seq<ColumnSchema>, fields: Fields, start: int, javaToSql: Value -> Option<Value>)
    ensures var r := Bind(cols, fields, start, javaToSql);
            && (r.Success? <==> forall i :: 0 <= i < |cols| ==> Param(cols[i], fields, javaToSql).Success?)
            && (r.Success? ==> |r.value| == |cols|)
            && (r.Success? ==> forall i :: 0 <= i < |cols| ==>
                  r.value[i] == Binding(start + i, Param(cols[i], fields, javaToSql).value))
            && (r.Failure? ==> exists k :: FirstUnbound(cols, fields, javaToSql, k, r.error))
  {
    if cols != [] {
      var init := cols[..|cols| - 1];
      BindInOrder(init, fields, start, javaToSql);
      assert forall i :: 0 <= i < |init| ==> init[i] == cols[i];
      match Bind(init, fields, start, javaToSql)
      case Failure(e) =>
        var k :| FirstUnbound(init, fields, javaToSql, k, e);
        assert FirstUnbound(cols, fields, javaToSql, k, e);
      case Success(ps) =>
        match Param(cols[|cols| - 1], fields, javaToSql)
        case Failure(e) =>
          assert FirstUnbound(cols, fields, javaToSql, |cols| - 1, e);
        case Success(v) =>
          var r := ps + [Binding(start + |cols| - 1, v)];
          assert forall i :: 0 <= i < |init| ==> r[i] == ps[i];
    }
  }

  /** Column `k` is the first of `cols` that cannot be bound, and `e` is why. */
  predicate FirstUnbound(cols: seq<ColumnSchema>, fields: Fields, javaToSql: Value -> Option<Value>, k: int, e: Error)
  {
    && 0 <= k < |cols| && Param(cols[k], fields, javaToSql) == Failure(e)
    && forall i :: 0 <= i < k ==> Param(cols[i], fields, javaToSql).Success?
  }

  /** Binding `a + b` binds the columns of `a` from `start` and those of `b` right after them. */
  lemma BindAppend(a: seq<ColumnSchema>, b: seq<ColumnSchema>, fields: Fields, start: int, javaToSql: Value -> Option<Value>)
    requires Bind(a + b, fields, start, javaToSql).Success?
    ensures var ps := Bind(a + b, fields, start, javaToSql).value;
            && |ps| == |a| + |b|
            && (forall i :: 0 <= i < |a| ==>
                  ps[i].position == start + i && Param(a[i], fields, javaToSql) == Success(ps[i].value))
            && (forall k :: |a| <= k < |a| + |b| ==>
                  ps[k].position == start + k && Param(b[k - |a|], fields, javaToSql) == Success(ps[k].value))
  {
    var all := a + b;
    assert forall i :: 0 <= i < |a| ==> all[i] == a[i];
    assert forall k :: |a| <= k < |a| + |b| ==> all[k] == b[k - |a|];
    BindInOrder(all, fields, start, javaToSql);
  }

  /** Binding `a + b` from `start` binds `a` from `start`, then `b` from `start + |a|`, and fails
      with the first failure of the two. */
  lemma {:induction false} BindConcat(a: seq<ColumnSchema>, b: seq<ColumnSchema>, fields: Fields, start: int, javaToSql: Value -> Option<Value>)
    ensures var ra, rb := Bind(a, fields, start, javaToSql), Bind(b, fields, start + |a|, javaToSql);
            Bind(a + b, fields, start, javaToSql)
            == if ra.Failure? then ra else if rb.Failure? then rb else Success(ra.value + rb.value)
  {
    if b == [] {
      assert a + b == a;
      var ra := Bind(a, fields, start, javaToSql);
      if ra.Success? {
        assert ra.value + [] == ra.value;
      }
    } else {
      var init := b[..|b| - 1];
      BindConcat(a, init, fields, start, javaToSql);
      assert (a + b)[..|a + b| - 1] == a + init;
      assert (a + b)[|a + b| - 1] == b[|b| - 1];
      var ra, ri := Bind(a, fields, start, javaToSql), Bind(init, fields, start + |a|, javaToSql);
      var p := Param(b[|b| - 1], fields, javaToSql);
      if ra.Success? && ri.Success? && p.Success? {
        var last := Binding(start + |a + b| - 1, p.value);
        assert ra.value + (ri.value + [last]) == ra.value + ri.value + [last];
      }
    }
  }

  /** Binding one more column extends the bound parameters by one. */
  lemma BindSnoc(cols: seq<ColumnSchema>, fields: Fields, start: int, javaToSql: Value -> Option<Value>, i: int, ps: seq<Binding>)
    requires 0 <= i < |cols|
    requires Bind(cols[..i], fields, start, javaToSql) == Success(ps)
    requires Param(cols[i], fields, javaToSql).Success?
    ensures Bind(cols[..i + 1], fields, start, javaToSql)
            == Success(ps + [Binding(start + i, Param(cols[i], fields, javaToSql).value)])
  {
    assert cols[..i + 1][..i] == cols[..i];
  }

  /** Binding stops at the first column that cannot be bound, whatever follows it. */
  lemma BindStops(cols: seq<ColumnSchema>, fields: Fields, start: int, javaToSql: Value -> Option<Value>, k: int, ps: seq<Binding>)
    requires 0 <= k < |cols|
    requires Bind(cols[..k], fields, start, javaToSql) == Success(ps)
    requires Param(cols[k], fields, javaToSql).Failure?
    ensures Bind(cols, fields, start, javaToSql) == Failure(Param(cols[k], fields, javaToSql).error)
  {
    BindInOrder(cols[..k], fields, start, javaToSql);
    BindInOrder(cols, fields, start, javaToSql);
    forall i | 0 <= i < k ensures Param(cols[i], fields, javaToSql).Success? {
      assert cols[..k][i] == cols[i];
    }
    var r := Bind(cols, fields, start, javaToSql);
    var k' :| FirstUnbound(cols, fields, javaToSql, k', r.error);
    assert k' == k;
  }

  /** The writes of the generated-key loop: the i-th key goes, as an int, into the i-th column;
      a key beyond the last column fails with TooManyKeys; a column without a setter fails. The
      record keeps every write made before a failure. */
  function AssignKeys(cols: seq<ColumnSchema>, keys: seq<int32>, fields: Fields): (r: Effect)
    ensures r.outcome == Pass <==> |keys| <= |cols| && forall i :: 0 <= i < |keys| ==> cols[i].setter.Some?
    ensures r.outcome.Fail? ==> exists i :: StopsAt(cols, keys, i, r.outcome.error)
    decreases |keys|
  {
    if keys == [] then Effect(Pass, fields, None)
    else if cols == [] then
      assert StopsAt(cols, keys, 0, TooManyKeys);
      Effect(Fail(TooManyKeys), fields, None)
    else
      match Write(cols[0], fields, IntVal(keys[0]))
      case Failure(e) =>
        assert StopsAt(cols, keys, 0, e);
        Effect(Fail(e), fields, None)
      case Success(f) =>
        var r := AssignKeys(cols[1..], keys[1..], f);
        if r.outcome.Fail? then
          var i :| StopsAt(cols[1..], keys[1..], i, r.outcome.error);
          assert StopsAt(cols, keys, i + 1, r.outcome.error);
          r
        else
          r
  }

  /** The generated-key loop stops at step `i` with `e`: every earlier column had a setter, and
      either the keys outlast the columns there (TooManyKeys) or column `i` has no setter. */
  predicate StopsAt(cols: seq<ColumnSchema>, keys: seq<int32>, i: int, e: Error)
  {
    && 0 <= i <= |cols| && i < |keys|
    && (forall j :: 0 <= j < i ==> cols[j].setter.Some?)
    && if i == |cols| then e == TooManyKeys
       else cols[i].setter.None? && e == SetFailed(IntVal(keys[i]), cols[i].name)
  }

  /** The column lists a table derives from its column map: the first version column, the
      auto-increment columns and the id columns (each sorted by pkOrdinal), and the insert and
      update maps, which drop the auto-increment and the id columns respectively. */
  ghost predicate Derived(columns: ColumnMap, versionCol: Option<ColumnSchema>, auto: seq<ColumnSchema>,
                          ins: ColumnMap, ids: seq<ColumnSchema>, upd: ColumnMap)
  {
    && IsFirstVersion(columns, versionCol)
    && auto == FindAutoIncrementColumns(columns)
    && ins == WithoutKeys(columns, NameSet(auto))
    && ids == FindIdCols(columns)
    && upd == WithoutKeys(columns, NameSet(ids))
  }

  class TableSchema {
    const clazz: EntityClass
    const tableName: string
    const driver: Driver
    const columns: ColumnMap
    const versionCol: Option<ColumnSchema>
    const autoIncrementColumns: seq<ColumnSchema>
    const insertColumns: ColumnMap
    const idColumns: seq<ColumnSchema>
    const updateColumns: ColumnMap
    const primaryKey: IndexSchema
    const insertQuery: string
    const updateQuery: string
    var indices: seq<IndexSchema>
    var parentRelations: seq<RelationSchema>
    var childRelations: seq<RelationSchema>

    /** The derived fields are what the constructor computes from the column map. */
    ghost predicate Valid()
    {
      && WellKeyed(columns)
      && Derived(columns, versionCol, autoIncrementColumns, insertColumns, idColumns, updateColumns)
      && primaryKey.columns == idColumns
      && insertQuery == driver.rendering.writeInsertQuery(insertColumns, tableName)
      && updateQuery == driver.rendering.writeUpdateQuery(updateColumns, tableName, idColumns)
    }

    /** The constructor after the Table annotation and the columns have been read: derives the
        version, auto-increment, insert, id and update columns, registers the primary-key index
        (the first index of a new table) and renders both queries. */
    constructor (clazz: EntityClass, tableName: string, driver: Driver, columns: ColumnMap)
      requires WellKeyed(columns)
      ensures Valid()
      ensures this.clazz == clazz && this.tableName == tableName && this.driver == driver && this.columns == columns
      ensures indices == [primaryKey] && fresh(primaryKey)
      ensures parentRelations == [] && childRelations == []
    {
      var vc, auto, ins, ids, upd, pk := DeriveColumns(columns);
      var idx := new IndexSchema(pk);
      this.clazz := clazz;
      this.tableName := tableName;
      this.driver := driver;
      this.columns := columns;
      versionCol := vc;
      autoIncrementColumns := auto;
      insertColumns := ins;
      idColumns := ids;
      updateColumns := upd;
      primaryKey := idx;
      insertQuery := driver.rendering.writeInsertQuery(ins, tableName);
      updateQuery := driver.rendering.writeUpdateQuery(upd, tableName, ids);
      indices := [idx];
      parentRelations := [];
      childRelations := [];
    }

    /** The column lists the constructor derives from the column map, in its order: the version
        column, the auto-increment columns, the insert columns, the id columns, the update
        columns and the primary key. */
    static method DeriveColumns(columns: ColumnMap)
      returns (vc: Option<ColumnSchema>, auto: seq<ColumnSchema>, ins: ColumnMap, ids: seq<ColumnSchema>,
               upd: ColumnMap, pk: seq<ColumnSchema>)
      ensures Derived(columns, vc, auto, ins, ids, upd) && pk == ids
    {
      vc := FindVersionCol(columns);
      auto := FindAutoIncrementColumns(columns);
      ins := RemoveByName(columns, auto);
      ids := FindIdCols(columns);
      upd := RemoveByName(columns, ids);
      pk := FindPk(columns);
    }

    /** `new TableSchema(clazz, driver)`: fails when the class has no Table annotation, or with
        the error parseAnnotations raises; otherwise a new table over the parsed columns. */
    static method Create(clazz: EntityClass, driver: Driver) returns (r: Result<TableSchema, Error>)
      ensures clazz.table.None? ==> r == Failure(NotATable)
      ensures clazz.table.Some? && Parse(clazz.methods).Failure? ==> r == Failure(Parse(clazz.methods).error)
      ensures r.Success? <==> clazz.table.Some? && Parse(clazz.methods).Success?
      ensures r.Success? ==> fresh(r.value) && r.value.Valid() && r.value.clazz == clazz
      ensures r.Success? ==> r.value.tableName == clazz.table.value && r.value.columns == Parse(clazz.methods).value
      ensures r.Success? ==> r.value.driver == driver && r.value.indices == [r.value.primaryKey]
      ensures r.Success? ==> r.value.parentRelations == [] && r.value.childRelations == []
    {
      if clazz.table.None? {
        return Failure(NotATable);
      }
      var columns := ParseAnnotations(clazz.methods);
      if columns.Failure? {
        return Failure(columns.error);
      }
      ParseFindsEveryName(clazz.methods);
      var t := new TableSchema(clazz, clazz.table.value, driver, columns.value);
      return Success(t);
    }

    /** `getColumn(name)`: the column stored under the lower-cased name. */
    function GetColumn(name: string): (r: Option<ColumnSchema>)
      ensures r.Some? ==> Entry(Lower(name), r.value) in columns
      ensures r.None? <==> forall i :: 0 <= i < |columns| ==> columns[i].key != Lower(name)
    {
      Get(columns, Lower(name))
    }

    /** `getColumns(names)`: the columns for the names, in request order; the first name without a
        column raises ColumnNotFound naming it and the table. */
    method GetColumns(names: seq<string>) returns (r: Result<seq<ColumnSchema>, Error>)
      ensures r.Success? <==> forall i :: 0 <= i < |names| ==> GetColumn(names[i]).Some?
      ensures r.Success? ==> |r.value| == |names| && forall i :: 0 <= i < |names| ==> r.value[i] == GetColumn(names[i]).value
      ensures r.Failure? ==> exists k :: && 0 <= k < |names| && GetColumn(names[k]).None?
                                         && r.error == ColumnNotFound(names[k], tableName)
                                         && forall j :: 0 <= j < k ==> GetColumn(names[j]).Some?
    {
      var cols: seq<ColumnSchema> := [];
      for i := 0 to |names|
        invariant |cols| == i
        invariant forall j :: 0 <= j < i ==> GetColumn(names[j]).Some? && cols[j] == GetColumn(names[j]).value
      {
        var col := GetColumn(names[i]);
        if col.None? {
          return Failure(ColumnNotFound(names[i], tableName));
        }
        cols := cols + [col.value];
      }
      return Success(cols);
    }

    /** `getIndex(cols)`: the first registered index that matches, or null. */
    method GetIndex(cols: seq<ColumnSchema>) returns (r: IndexSchema?)
      ensures r == null <==> FirstMatch(indices, cols).None?
      ensures r != null ==> r == indices[FirstMatch(indices, cols).value]
    {
      for i := 0 to |indices|
        invariant forall j :: 0 <= j < i ==> !indices[j].Matches(cols)
      {
        if indices[i].Matches(cols) {
          return indices[i];
        }
      }
      return null;
    }

    /** `ensureIndex(cols)`: the registered matching index when there is one, the registry
        unchanged; otherwise a new index over `cols`, appended to the registry. */
    method EnsureIndex(cols: seq<ColumnSchema>) returns (r: IndexSchema)
      modifies this
      ensures parentRelations == old(parentRelations) && childRelations == old(childRelations)
      ensures match FirstMatch(old(indices), cols)
              case Some(i) => r == old(indices)[i] && indices == old(indices)
              case None => fresh(r) && r.columns == cols && indices == old(indices) + [r]
    {
      var idx := GetIndex(cols);
      if idx != null {
        return idx;
      }
      idx := new IndexSchema(cols);
      indices := indices + [idx];
      return idx;
    }

    /** `addChildRelation(rel)`: registers the relation's primary index and the relation. */
    method AddChildRelation(rel: RelationSchema)
      modifies this
      ensures indices == old(indices) + [rel.primaryIndex]
      ensures childRelations == old(childRelations) + [rel]
      ensures parentRelations == old(parentRelations)
    {
      indices := indices + [rel.primaryIndex];
      childRelations := childRelations + [rel];
    }

    /** `addParentRelation(rel)`: registers the relation. */
    method AddParentRelation(rel: RelationSchema)
      modifies this
      ensures parentRelations == old(parentRelations) + [rel]
      ensures indices == old(indices) && childRelations == old(childRelations)
    {
      parentRelations := parentRelations + [rel];
    }

    /** The parameters `prepareInsertParms` binds: the insert columns in key order from position 1. */
    function InsertParams(fields: Fields): Result<seq<Binding>, Error>
    {
      Bind(Values(insertColumns), fields, 1, driver.rendering.javaToSql)
    }

    /** The parameters `prepareUpdateParms` binds: the update columns in key order, then the id
        columns in pkOrdinal order, at consecutive positions from 1. */
    function UpdateParams(fields: Fields): Result<seq<Binding>, Error>
    {
      Bind(Values(updateColumns) + idColumns, fields, 1, driver.rendering.javaToSql)
    }

    /** `prepareInsertParms`. */
    method PrepareInsertParms(record: Record) returns (r: Result<seq<Binding>, Error>)
      ensures r == InsertParams(record.fields)
    {
      var cols := Values(insertColumns);
      var params: seq<Binding> := [];
      var idx := 1;
      for i := 0 to |cols|
        invariant idx == 1 + i
        invariant Bind(cols[..i], record.fields, 1, driver.rendering.javaToSql) == Success(params)
      {
        assert cols[..i + 1][..i] == cols[..i];
        var p := Param(cols[i], record.fields, driver.rendering.javaToSql);
        if p.Failure? {
          BindStops(cols, record.fields, 1, driver.rendering.javaToSql, i, params);
          return Failure(p.error);
        }
        params := params + [Binding(idx, p.value)];
        idx := idx + 1;
      }
      assert cols[..|cols|] == cols;
      return Success(params);
    }

    /** `prepareUpdateParms`: one loop over the update columns, a second over the id columns. */
    method PrepareUpdateParms(record: Record) returns (r: Result<seq<Binding>, Error>)
      ensures r == UpdateParams(record.fields)
    {
      var upd := Values(updateColumns);
      var params: seq<Binding> := [];
      var idx := 1;
      var conv := driver.rendering.javaToSql;
      var fields := record.fields;
      BindConcat(upd, idColumns, fields, 1, conv);
      for i := 0 to |upd|
        invariant idx == 1 + i
        invariant Bind(upd[..i], fields, 1, conv) == Success(params)
      {
        var p := Param(upd[i], fields, conv);
        if p.Failure? {
          BindStops(upd, fields, 1, conv, i, params);
          return Failure(p.error);
        }
        BindSnoc(upd, fields, 1, conv, i, params);
        params := params + [Binding(idx, p.value)];
        idx := idx + 1;
      }
      assert upd[..|upd|] == upd;
      ghost var first := params;
      ghost var rest: seq<Binding> := [];
      for j := 0 to |idColumns|
        invariant idx == 1 + |upd| + j
        invariant params == first + rest
        invariant Bind(idColumns[..j], fields, 1 + |upd|, conv) == Success(rest)
      {
        var p := Param(idColumns[j], fields, conv);
        if p.Failure? {
          BindStops(idColumns, fields, 1 + |upd|, conv, j, rest);
          return Failure(p.error);
        }
        BindSnoc(idColumns, fields, 1 + |upd|, conv, j, rest);
        params := params + [Binding(idx, p.value)];
        rest := rest + [Binding(idx, p.value)];
        idx := idx + 1;
      }
      assert idColumns[..|idColumns|] == idColumns;
      return Success(params);
    }

    /** `getFriendlyError` wrapped around its cause: the parameters are bound again on the record
        as it now is; if that succeeds the error names the table, the driver, the query and the
        parameters, and wraps the cause; if it fails, only that failure is reported. */
    function FriendlyError(isInsert: bool, fields: Fields, cause: Error): Error
    {
      match (if isInsert then InsertParams(fields) else UpdateParams(fields))
      case Failure(e) => ReportFailed(e)
      case Success(ps) => PersistFailed(tableName, driver.name, if isInsert then insertQuery else updateQuery, ps, cause)
    }

    /** `getFriendlyError(record, insert)` with the exception it is about. */
    method GetFriendlyError(record: Record, isInsert: bool, cause: Error) returns (r: Error)
      ensures r == FriendlyError(isInsert, record.fields, cause)
    {
      var ps;
      if isInsert {
        ps := PrepareInsertParms(record);
      } else {
        ps := PrepareUpdateParms(record);
      }
      if ps.Failure? {
        return ReportFailed(ps.error);
      }
      r := PersistFailed(tableName, driver.name, if isInsert then insertQuery else updateQuery, ps.value, cause);
    }

    /** `getVersion(record)`: the version column's value as an int. */
    function GetVersion(fields: Fields): (r: Result<int32, Error>)
      ensures r.Success? <==> versionCol.Some? && versionCol.value.name in fields && fields[versionCol.value.name].IntVal?
      ensures r.Success? ==> r.value == fields[versionCol.value.name].i
    {
      match versionCol
      case None => Failure(NoVersionColumn)
      case Some(vc) =>
        match Read(vc, fields)
        case Failure(e) => Failure(e)
        case Success(v) => if v.IntVal? then Success(v.i) else Failure(VersionNotInt(v))
    }

    /** The effect of `setVersion(record, val)`. */
    function WriteVersion(fields: Fields, val: int32): Result<Fields, Error>
    {
      match versionCol
      case None => Failure(NoVersionColumn)
      case Some(vc) => Write(vc, fields, IntVal(val))
    }

    /** `setVersion(record, val)`. */
    method SetVersion(record: Record, val: int32) returns (r: Outcome<Error>)
      modifies record
      ensures match WriteVersion(old(record.fields), val)
              case Failure(e) => r == Fail(e) && record.fields == old(record.fields)
              case Success(f) => r == Pass && record.fields == f
    {
      if versionCol.None? {
        return Fail(NoVersionColumn);
      }
      r := Set(versionCol.value, record, IntVal(val));
    }

    /** What `insert(con, record)` does on a record with these fields. */
    function InsertEffect(con: Connection, fields: Fields): Effect
    {
      match InsertParams(fields)
      case Failure(e) => Effect(Fail(FriendlyError(true, fields, e)), fields, None)
      case Success(ps) =>
        var executed := Some(Statement(insertQuery, ps));
        if con.affectedRows != 1 then Effect(Fail(FriendlyError(true, fields, InsertFailed)), fields, executed)
        else if |autoIncrementColumns| == 0 then Effect(Pass, fields, executed)
        else
          var a := AssignKeys(autoIncrementColumns, con.generatedKeys, fields);
          match a.outcome
          case Pass => Effect(Pass, a.fields, executed)
          case Fail(e) => Effect(Fail(FriendlyError(true, a.fields, e)), a.fields, executed)
    }

    /** What `update(con, record)` does on a record with these fields. */
    function UpdateEffect(con: Connection, fields: Fields): Effect
    {
      match UpdateParams(fields)
      case Failure(e) => Effect(Fail(FriendlyError(false, fields, e)), fields, None)
      case Success(ps) =>
        var executed := Some(Statement(updateQuery, ps));
        if con.affectedRows != 1 then Effect(Fail(FriendlyError(false, fields, UpdateFailed)), fields, executed)
        else Effect(Pass, fields, executed)
    }

    /** What `persist(con, record)` does on a record with these fields: version 0 becomes 1 and
        the record is inserted; any other version is incremented (as a Java int) and the record is
        updated. */
    function PersistEffect(con: Connection, fields: Fields): Effect
    {
      match GetVersion(fields)
      case Failure(e) => Effect(Fail(e), fields, None)
      case Success(v) =>
        var next := if v == 0 then 1 else Inc32(v);
        match WriteVersion(fields, next)
        case Failure(e) => Effect(Fail(e), fields, None)
        case Success(f) => if v == 0 then InsertEffect(con, f) else UpdateEffect(con, f)
    }

    /** `insert(con, record)`: binds the insert columns, runs the insert, demands one affected row,
        then writes the generated keys into the auto-increment columns in order. */
    method Insert(con: Connection, record: Record) returns (r: Outcome<Error>, executed: Option<Statement>)
      modifies record
      ensures Effect(r, record.fields, executed) == InsertEffect(con, old(record.fields))
    {
      executed := None;
      var ps := PrepareInsertParms(record);
      if ps.Failure? {
        var e := GetFriendlyError(record, true, ps.error);
        return Fail(e), executed;
      }
      executed := Some(Statement(insertQuery, ps.value));
      if con.affectedRows != 1 {
        var e := GetFriendlyError(record, true, InsertFailed);
        return Fail(e), executed;
      }
      if |autoIncrementColumns| > 0 {
        var keys := con.generatedKeys;
        ghost var start := record.fields;
        var resIndex := 0;
        while resIndex < |keys|
          invariant resIndex <= |keys| && resIndex <= |autoIncrementColumns|
          invariant AssignKeys(autoIncrementColumns, keys, start)
                    == AssignKeys(autoIncrementColumns[resIndex..], keys[resIndex..], record.fields)
          decreases |keys| - resIndex
        {
          if resIndex >= |autoIncrementColumns| {
            var e := GetFriendlyError(record, true, TooManyKeys);
            return Fail(e), executed;
          }
          assert autoIncrementColumns[resIndex..][1..] == autoIncrementColumns[resIndex + 1..];
          assert keys[resIndex..][1..] == keys[resIndex + 1..];
          var s := Set(autoIncrementColumns[resIndex], record, IntVal(keys[resIndex]));
          if s.Fail? {
            var e := GetFriendlyError(record, true, s.error);
            return Fail(e), executed;
          }
          resIndex := resIndex + 1;
        }
        assert keys[resIndex..] == [];
      }
      return Pass, executed;
    }

    /** `update(con, record)`: binds the update and id columns, runs the update and demands one
        affected row. */
    method Update(con: Connection, record: Record) returns (r: Outcome<Error>, executed: Option<Statement>)
      modifies record
      ensures Effect(r, record.fields, executed) == UpdateEffect(con, old(record.fields))
    {
      executed := None;
      var ps := PrepareUpdateParms(record);
      if ps.Failure? {
        var e := GetFriendlyError(record, false, ps.error);
        return Fail(e), executed;
      }
      executed := Some(Statement(updateQuery, ps.value));
      if con.affectedRows != 1 {
        var e := GetFriendlyError(record, false, UpdateFailed);
        return Fail(e), executed;
      }
      return Pass, executed;
    }

    /** `persist(con, record)`. */
    method Persist(con: Connection, record: Record) returns (r: Outcome<Error>, executed: Option<Statement>)
      modifies record
      ensures Effect(r, record.fields, executed) == PersistEffect(con, old(record.fields))
    {
      var version := GetVersion(record.fields);
      if version.Failure? {
        return Fail(version.error), None;
      }
      if version.value == 0 {
        var s := SetVersion(record, 1);
        if s.Fail? {
          return s, None;
        }
        r, executed := Insert(con, record);
      } else {
        var s := SetVersion(record, Inc32(version.value));
        if s.Fail? {
          return s, None;
        }
        r, executed := Update(con, record);
      }
    }
  }
}
