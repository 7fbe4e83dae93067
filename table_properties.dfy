/** What a TableSchema promises: case-insensitive column lookup, an idempotent index registry,
    the parameters each statement binds, the one-row rule, generated-key assignment and the
    version bump of persist. */
module TableProperties {
  import opened Wrappers
  import opened Jdbc
  import opened Errors
  import opened Strings
  import opened SortedMaps
  import opened Columns
  import opened Tables
  import Partitions

  /** No two of the columns share a declared name. */
  predicate DistinctNames(cols: seq<ColumnSchema>)
  {
    forall i, j :: 0 <= i < j < |cols| ==> cols[i].name != cols[j].name
  }

  /** Every one of the columns has a setter. */
  predicate Settable(cols: seq<ColumnSchema>)
  {
    forall i :: 0 <= i < |cols| ==> cols[i].setter.Some?
  }

  /** `n` is the declared name of none of the columns. */
  predicate NotNamed(cols: seq<ColumnSchema>, n: string)
  {
    forall i :: 0 <= i < |cols| ==> cols[i].name != n
  }

  /** A slice of columns none of which is named `n`. */
  lemma NotNamedSlice(cols: seq<ColumnSchema>, lo: int, hi: int, n: string)
    requires 0 <= lo <= hi <= |cols|
    requires forall i :: lo <= i < hi ==> cols[i].name != n
    ensures NotNamed(cols[lo..hi], n)
  {
    forall j | 0 <= j < hi - lo ensures cols[lo..hi][j].name != n {
      assert cols[lo..hi][j] == cols[lo + j];
    }
  }

  // Column lookup

  /** getColumn ignores case: any spelling of a name finds the same column, a found column's name
      lower-cases to the requested one's, and nothing is found exactly when no column's name does. */
  lemma GetColumnIgnoresCase(t: TableSchema, name: string)
    requires Partitions.WellKeyed(t.columns)
    ensures t.GetColumn(name) == t.GetColumn(Lower(name))
    ensures t.GetColumn(name).Some? ==>
              t.GetColumn(name).value in Values(t.columns) && Lower(t.GetColumn(name).value.name) == Lower(name)
    ensures t.GetColumn(name).None? <==> forall c :: c in Values(t.columns) ==> Lower(c.name) != Lower(name)
  {
    LowerIsLower(name);
    LowerOfLower(Lower(name));
    var r := t.GetColumn(name);
    if r.Some? {
      var i :| 0 <= i < |t.columns| && t.columns[i] == Entry(Lower(name), r.value);
      assert Values(t.columns)[i] == r.value;
    }
    forall c | c in Values(t.columns) && Lower(c.name) == Lower(name) ensures r.Some? {
      var i :| 0 <= i < |Values(t.columns)| && Values(t.columns)[i] == c;
      assert t.columns[i].key == Lower(name);
    }
  }

  /** Two spellings of a name that agree up to ASCII case find the same column. */
  lemma GetColumnSameUpToCase(t: TableSchema, a: string, b: string)
    requires |a| == |b| && forall i :: 0 <= i < |a| ==> LowerChar(a[i]) == LowerChar(b[i])
    ensures t.GetColumn(a) == t.GetColumn(b)
  {
    LowerEqual(a, b);
  }

  // Index registry

  /** After ensureIndex appends a new index for `cols`, looking `cols` up finds that index. */
  lemma {:induction false} EnsuredIndexIsFound(idxs: seq<IndexSchema>, idx: IndexSchema, cols: seq<ColumnSchema>)
    requires FirstMatch(idxs, cols).None? && idx.columns == cols
    ensures FirstMatch(idxs + [idx], cols) == Some(|idxs|)
  {
    if idxs != [] {
      assert (idxs + [idx])[1..] == idxs[1..] + [idx];
      EnsuredIndexIsFound(idxs[1..], idx, cols);
    }
  }

  /** Appending indices never changes which index a lookup that already matched finds. */
  lemma {:induction false} FoundIndexStays(idxs: seq<IndexSchema>, more: seq<IndexSchema>, cols: seq<ColumnSchema>)
    requires FirstMatch(idxs, cols).Some?
    ensures FirstMatch(idxs + more, cols) == FirstMatch(idxs, cols)
  {
    if !idxs[0].Matches(cols) {
      assert (idxs + more)[1..] == idxs[1..] + more;
      FoundIndexStays(idxs[1..], more, cols);
    }
  }

  // Generated keys

  /** With no more keys than columns, all of them settable and named apart, key i is written into
      column i, the loop ends normally, and every other column of the record is left as it was
      (so fewer keys leave the remaining columns untouched). */
  lemma {:induction false} AssignKeysInOrder(cols: seq<ColumnSchema>, keys: seq<int32>, fields: Fields)
    requires |keys| <= |cols| && Settable(cols) && DistinctNames(cols)
    ensures AssignKeys(cols, keys, fields).outcome == Pass
    ensures forall i :: 0 <= i < |keys| ==>
              cols[i].name in AssignKeys(cols, keys, fields).fields &&
              AssignKeys(cols, keys, fields).fields[cols[i].name] == IntVal(keys[i])
    ensures forall n :: NotNamed(cols[..|keys|], n) ==>
              (n in AssignKeys(cols, keys, fields).fields <==> n in fields) &&
              (n in fields ==> AssignKeys(cols, keys, fields).fields[n] == fields[n])
  {
    if keys != [] {
      var f := Write(cols[0], fields, IntVal(keys[0])).value;
      AssignKeysInOrder(cols[1..], keys[1..], f);
      var r := AssignKeys(cols, keys, fields);
      assert r == AssignKeys(cols[1..], keys[1..], f);
      assert cols[1..][..|keys| - 1] == cols[1..|keys|];
      forall i | 0 <= i < |keys| ensures cols[i].name in r.fields && r.fields[cols[i].name] == IntVal(keys[i]) {
        if i == 0 {
          NotNamedSlice(cols, 1, |keys|, cols[0].name);
        } else {
          assert cols[1..][i - 1] == cols[i];
        }
      }
      forall n | NotNamed(cols[..|keys|], n)
        ensures (n in r.fields <==> n in fields) && (n in fields ==> r.fields[n] == fields[n])
      {
        assert cols[..|keys|][0] == cols[0];
        forall j | 1 <= j < |keys| ensures cols[j].name != n {
          assert cols[..|keys|][j] == cols[j];
        }
        NotNamedSlice(cols, 1, |keys|, n);
      }
    }
  }

  /** With more keys than columns, all of them settable, the loop fails with TooManyKeys after
      writing one key into every column. */
  lemma {:induction false} SurplusKeysFail(cols: seq<ColumnSchema>, keys: seq<int32>, fields: Fields)
    requires |keys| > |cols| && Settable(cols) && DistinctNames(cols)
    ensures AssignKeys(cols, keys, fields).outcome == Fail(TooManyKeys)
    ensures forall i :: 0 <= i < |cols| ==>
              cols[i].name in AssignKeys(cols, keys, fields).fields &&
              AssignKeys(cols, keys, fields).fields[cols[i].name] == IntVal(keys[i])
  {
    if cols != [] {
      var f := Write(cols[0], fields, IntVal(keys[0])).value;
      SurplusKeysFail(cols[1..], keys[1..], f);
      var r := AssignKeys(cols, keys, fields);
      forall i | 0 <= i < |cols| ensures cols[i].name in r.fields && r.fields[cols[i].name] == IntVal(keys[i]) {
        if i == 0 {
          NotNamedSlice(cols, 1, |cols|, cols[0].name);
          AssignKeysFrame(cols[1..], keys[1..], f, cols[0].name);
        } else {
          assert cols[1..][i - 1] == cols[i];
        }
      }
    }
  }

  /** Whatever happens, the key loop touches only the columns it is given. */
  lemma {:induction false} AssignKeysFrame(cols: seq<ColumnSchema>, keys: seq<int32>, fields: Fields, n: string)
    requires NotNamed(cols, n)
    ensures n in AssignKeys(cols, keys, fields).fields <==> n in fields
    ensures n in fields ==> AssignKeys(cols, keys, fields).fields[n] == fields[n]
  {
    if keys != [] && cols != [] {
      var w := Write(cols[0], fields, IntVal(keys[0]));
      if w.Success? {
        NotNamedSlice(cols, 1, |cols|, n);
        AssignKeysFrame(cols[1..], keys[1..], w.value, n);
      }
    }
  }

  // insert

  /** An insert whose parameters cannot be bound executes nothing, leaves the record as it was and
      fails with that binding error, reported as a failure to build the error message. */
  lemma InsertBindFailure(t: TableSchema, con: Connection, fields: Fields)
    requires t.InsertParams(fields).Failure?
    ensures t.InsertEffect(con, fields) == Effect(Fail(ReportFailed(t.InsertParams(fields).error)), fields, None)
  {
  }

  /** An insert executes the insert query with the insert columns bound in key order at positions
      1, 2, … exactly when every one of them can be bound. */
  lemma InsertBindsInsertColumns(t: TableSchema, con: Connection, fields: Fields)
    ensures t.InsertEffect(con, fields).executed.Some? <==> t.InsertParams(fields).Success?
    ensures t.InsertEffect(con, fields).executed.Some? ==>
              var s := t.InsertEffect(con, fields).executed.value;
              var cols := Values(t.insertColumns);
              && s.sql == t.insertQuery
              && |s.params| == |cols|
              && forall i :: 0 <= i < |cols| ==>
                   s.params[i].position == i + 1 &&
                   Param(cols[i], fields, t.driver.rendering.javaToSql) == Success(s.params[i].value)
  {
    BindInOrder(Values(t.insertColumns), fields, 1, t.driver.rendering.javaToSql);
  }

  /** An insert that does not affect exactly one row fails: the error names the table, the
      driver, the query and the parameters, wraps InsertFailed, and the record is unchanged. */
  lemma InsertNeedsOneRow(t: TableSchema, con: Connection, fields: Fields)
    requires t.InsertParams(fields).Success? && con.affectedRows != 1
    ensures t.InsertEffect(con, fields)
            == Effect(Fail(PersistFailed(t.tableName, t.driver.name, t.insertQuery, t.InsertParams(fields).value, InsertFailed)),
                      fields, Some(Statement(t.insertQuery, t.InsertParams(fields).value)))
  {
  }

  /** Without auto-increment columns a one-row insert succeeds, ignores any generated keys and
      leaves the record as it was. */
  lemma InsertIgnoresKeysWithoutAutoIncrement(t: TableSchema, con: Connection, fields: Fields)
    requires t.InsertParams(fields).Success? && con.affectedRows == 1 && |t.autoIncrementColumns| == 0
    ensures t.InsertEffect(con, fields) == Effect(Pass, fields, Some(Statement(t.insertQuery, t.InsertParams(fields).value)))
  {
  }

  /** A one-row insert with no more generated keys than auto-increment columns succeeds and writes
      key i into auto-increment column i, leaving every other column (the auto-increment columns
      past the last key among them) as it was. */
  lemma InsertAssignsKeysInOrder(t: TableSchema, con: Connection, fields: Fields)
    requires t.InsertParams(fields).Success? && con.affectedRows == 1
    requires |con.generatedKeys| <= |t.autoIncrementColumns|
    requires Settable(t.autoIncrementColumns) && DistinctNames(t.autoIncrementColumns)
    ensures t.InsertEffect(con, fields).outcome == Pass
    ensures forall i :: 0 <= i < |con.generatedKeys| ==>
              t.autoIncrementColumns[i].name in t.InsertEffect(con, fields).fields &&
              t.InsertEffect(con, fields).fields[t.autoIncrementColumns[i].name] == IntVal(con.generatedKeys[i])
    ensures forall n :: NotNamed(t.autoIncrementColumns[..|con.generatedKeys|], n) ==>
              (n in t.InsertEffect(con, fields).fields <==> n in fields) &&
              (n in fields ==> t.InsertEffect(con, fields).fields[n] == fields[n])
  {
    var auto := t.autoIncrementColumns;
    var keys := con.generatedKeys;
    if |auto| > 0 {
      AssignKeysInOrder(auto, keys, fields);
    }
  }

  /** A one-row insert with more generated keys than auto-increment columns fails with
      TooManyKeys, after writing a key into each auto-increment column. */
  lemma InsertSurplusKeysFail(t: TableSchema, con: Connection, fields: Fields)
    requires t.InsertParams(fields).Success? && con.affectedRows == 1
    requires 0 < |t.autoIncrementColumns| < |con.generatedKeys|
    requires Settable(t.autoIncrementColumns) && DistinctNames(t.autoIncrementColumns)
    ensures var r := t.InsertEffect(con, fields);
            && r.outcome == Fail(t.FriendlyError(true, r.fields, TooManyKeys))
            && forall i :: 0 <= i < |t.autoIncrementColumns| ==>
                 t.autoIncrementColumns[i].name in r.fields &&
                 r.fields[t.autoIncrementColumns[i].name] == IntVal(con.generatedKeys[i])
  {
    SurplusKeysFail(t.autoIncrementColumns, con.generatedKeys, fields);
  }

  // update

  /** An update never changes the record. */
  lemma UpdateLeavesRecord(t: TableSchema, con: Connection, fields: Fields)
    ensures t.UpdateEffect(con, fields).fields == fields
  {
  }

  /** An update executes the update query, with the parameters `prepareUpdateParms` binds,
      exactly when every parameter can be bound. */
  lemma UpdateExecutesUpdateQuery(t: TableSchema, con: Connection, fields: Fields)
    ensures t.UpdateEffect(con, fields).executed.Some? <==> t.UpdateParams(fields).Success?
    ensures t.UpdateEffect(con, fields).executed.Some? ==>
              t.UpdateEffect(con, fields).executed.value == Statement(t.updateQuery, t.UpdateParams(fields).value)
  {
  }

  /** The update parameters are the update columns bound in key order at positions 1, 2, …,
      followed by the id columns in pkOrdinal order. */
  lemma UpdateBindsUpdateThenIdColumns(t: TableSchema, fields: Fields)
    ensures t.UpdateParams(fields).Success? ==>
              var ps := t.UpdateParams(fields).value;
              var upd := Values(t.updateColumns);
              var conv := t.driver.rendering.javaToSql;
              && |ps| == |upd| + |t.idColumns|
              && (forall i :: 0 <= i < |upd| ==>
                    ps[i].position == i + 1 && Param(upd[i], fields, conv) == Success(ps[i].value))
              && (forall k :: |upd| <= k < |upd| + |t.idColumns| ==>
                    ps[k].position == k + 1 && Param(t.idColumns[k - |upd|], fields, conv) == Success(ps[k].value))
  {
    var upd, ids, conv := Values(t.updateColumns), t.idColumns, t.driver.rendering.javaToSql;
    var r := t.UpdateParams(fields);
    assert r == Bind(upd + ids, fields, 1, conv);
    if r.Success? {
      BindAppend(upd, ids, fields, 1, conv);
    }
  }

  /** An update that does not affect exactly one row fails: the error names the table, the
      driver, the query and the parameters, and wraps UpdateFailed. */
  lemma UpdateNeedsOneRow(t: TableSchema, con: Connection, fields: Fields)
    requires t.UpdateParams(fields).Success? && con.affectedRows != 1
    ensures t.UpdateEffect(con, fields).outcome
            == Fail(PersistFailed(t.tableName, t.driver.name, t.updateQuery, t.UpdateParams(fields).value, UpdateFailed))
  {
  }

  /** An update passes exactly when its parameters bind and it affects exactly one row. */
  lemma UpdatePassesOnOneRow(t: TableSchema, con: Connection, fields: Fields)
    ensures t.UpdateEffect(con, fields).outcome.Pass? <==> t.UpdateParams(fields).Success? && con.affectedRows == 1
  {
  }

  /** An update that matched no row is reported exactly like one that matched several. */
  lemma ZeroRowUpdateLooksLikeAnyOther(t: TableSchema, con: Connection, fields: Fields, rows: int)
    requires con.affectedRows == 0 && rows != 1
    ensures t.UpdateEffect(con, fields) == t.UpdateEffect(con.(affectedRows := rows), fields)
  {
  }

  // persist

  /** persist on a record at version 0 sets the version to 1 and then inserts. */
  lemma PersistVersionZeroInserts(t: TableSchema, con: Connection, fields: Fields)
    requires t.GetVersion(fields) == Success(0) && t.versionCol.value.setter.Some?
    ensures t.PersistEffect(con, fields) == t.InsertEffect(con, fields[t.versionCol.value.name := IntVal(1)])
  {
  }

  /** persist on a record at any other version v sets the version to v + 1 (wrapping as a Java
      int) and then updates. */
  lemma PersistOtherVersionUpdates(t: TableSchema, con: Connection, fields: Fields, v: int32)
    requires t.GetVersion(fields) == Success(v) && v != 0 && t.versionCol.value.setter.Some?
    ensures t.PersistEffect(con, fields) == t.UpdateEffect(con, fields[t.versionCol.value.name := IntVal(Inc32(v))])
  {
  }

  /** persist without a version column, or on a record whose version cannot be read as an int,
      fails before touching the record or the connection. */
  lemma PersistNeedsVersion(t: TableSchema, con: Connection, fields: Fields)
    requires t.GetVersion(fields).Failure?
    ensures t.PersistEffect(con, fields) == Effect(Fail(t.GetVersion(fields).error), fields, None)
    ensures t.versionCol.None? ==> t.GetVersion(fields) == Failure(NoVersionColumn)
    ensures t.versionCol.Some? && t.versionCol.value.name !in fields ==>
              t.GetVersion(fields) == Failure(GetFailed)
    ensures t.versionCol.Some? && t.versionCol.value.name in fields ==>
              !fields[t.versionCol.value.name].IntVal? &&
              t.GetVersion(fields) == Failure(VersionNotInt(fields[t.versionCol.value.name]))
  {
  }

  /** persist on a readable version whose column has no setter fails with SetFailed for the
      bumped value, leaving the record and running no statement. */
  lemma PersistVersionUnwritable(t: TableSchema, con: Connection, fields: Fields, v: int32)
    requires t.GetVersion(fields) == Success(v) && t.versionCol.value.setter.None?
    ensures t.PersistEffect(con, fields)
            == Effect(Fail(SetFailed(IntVal(if v == 0 then 1 else Inc32(v)), t.versionCol.value.name)), fields, None)
  {
  }

  /** The version bump happens before the statement runs: whether the insert or update then
      succeeds or fails, the record keeps the new version (unless an auto-increment column of the
      same name overwrites it). */
  lemma PersistBumpSticks(t: TableSchema, con: Connection, fields: Fields, v: int32)
    requires t.GetVersion(fields) == Success(v) && t.versionCol.value.setter.Some?
    requires NotNamed(t.autoIncrementColumns, t.versionCol.value.name)
    ensures var r := t.PersistEffect(con, fields);
            t.versionCol.value.name in r.fields &&
            r.fields[t.versionCol.value.name] == IntVal(if v == 0 then 1 else Inc32(v))
  {
    var vc := t.versionCol.value;
    var next: int32 := if v == 0 then 1 else Inc32(v);
    var f := fields[vc.name := IntVal(next)];
    if v == 0 && t.InsertParams(f).Success? && con.affectedRows == 1 && |t.autoIncrementColumns| > 0 {
      AssignKeysFrame(t.autoIncrementColumns, con.generatedKeys, f, vc.name);
    }
  }
}
