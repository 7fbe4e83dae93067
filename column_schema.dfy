/** ColumnSchema: the immutable descriptor of one mapped column, and the record it reads and writes
    through its accessors. */
module Columns {
  import opened Wrappers
  import opened Jdbc
  import opened Errors

  /** A method's declared return type; `Void` is `void.class`. */
  datatype JavaType = Void | Reference(typeName: string)

  /** A reflective accessor, reduced to an identity and its return type. */
  datatype Method = Method(id: nat, returnType: JavaType)

  /** The fields of a ColumnSchema; the getter is never absent, the setter may be. */
  datatype ColumnSchema = ColumnSchema(
    name: string,
    getter: Method,
    setter: Option<Method>,
    pkOrdinal: int32,
    isVersion: bool,
    autoIncrement: bool)
  {
    /** `getType()`: the getter's return type. */
    function ValueType(): JavaType
    {
      getter.returnType
    }
  }

  /** The constructor: a missing getter raises an error naming the column; otherwise every
      argument is kept as given (a missing setter included). */
  function NewColumn(name: string, getter: Option<Method>, setter: Option<Method>,
                     pkOrdinal: int32, isVersion: bool, autoIncrement: bool): (r: Result<ColumnSchema, Error>)
    ensures r.Failure? <==> getter.None?
    ensures r.Failure? ==> r.error == NoGetter(name)
    ensures r.Success? ==> && r.value.name == name && Some(r.value.getter) == getter
                           && r.value.setter == setter && r.value.pkOrdinal == pkOrdinal
                           && r.value.isVersion == isVersion && r.value.autoIncrement == autoIncrement
    ensures r.Success? ==> r.value.ValueType() == getter.value.returnType
  {
    if getter.None? then Failure(NoGetter(name))
    else Success(ColumnSchema(name, getter.value, setter, pkOrdinal, isVersion, autoIncrement))
  }

  /** A mapped record's state: the value each column's accessors reach, by declared column name. */
  type Fields = map<string, Value>

  /** A mapped record. Only the column accessors touch it. */
  class Record {
    var fields: Fields

    constructor (fields: Fields)
      ensures this.fields == fields
    {
      this.fields := fields;
    }
  }

  /** `get(record)`: the getter's answer, or an error when the getter cannot be invoked on the record. */
  function Read(col: ColumnSchema, fields: Fields): (r: Result<Value, Error>)
    ensures r.Success? <==> col.name in fields
    ensures r.Success? ==> r.value == fields[col.name]
    ensures r.Failure? ==> r.error == GetFailed
  {
    if col.name in fields then Success(fields[col.name]) else Failure(GetFailed)
  }

  /** The effect of `set(record, val)`: fails naming the value and the column when there is no
      setter; otherwise the column now holds `val` and every other column is as it was. */
  function Write(col: ColumnSchema, fields: Fields, val: Value): (r: Result<Fields, Error>)
    ensures r.Failure? <==> col.setter.None?
    ensures r.Failure? ==> r.error == SetFailed(val, col.name)
    ensures r.Success? ==> r.value.Keys == fields.Keys + {col.name} && r.value[col.name] == val
    ensures r.Success? ==> forall n :: n in fields && n != col.name ==> r.value[n] == fields[n]
  {
    if col.setter.None? then Failure(SetFailed(val, col.name)) else Success(fields[col.name := val])
  }

  /** Reading a column back after a successful write yields the value written. */
  lemma ReadAfterWrite(col: ColumnSchema, fields: Fields, val: Value)
    requires col.setter.Some?
    ensures Write(col, fields, val).Success?
    ensures Read(col, Write(col, fields, val).value) == Success(val)
  {
  }

  /** `set(record, val)` on the record object. */
  method Set(col: ColumnSchema, record: Record, val: Value) returns (r: Outcome<Error>)
    modifies record
    ensures match Write(col, old(record.fields), val)
            case Failure(e) => r == Fail(e) && record.fields == old(record.fields)
            case Success(f) => r == Pass && record.fields == f
  {
    match Write(col, record.fields, val)
    case Failure(e) =>
      r := Fail(e);
    case Success(f) =>
      record.fields := f;
      r := Pass;
  }
}
