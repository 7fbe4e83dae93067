/** The JDBC-facing primitives: Java `int`, the values a record holds, bound parameters and a
    scripted connection that stands for the database's answers. */
module Jdbc {

  /** Java's 32-bit `int`. */
  newtype int32 = x: int | -0x8000_0000 <= x < 0x8000_0000

  /** Java's `v + 1` on an `int`: two's-complement wrap-around at Integer.MAX_VALUE. */
  function Inc32(v: int32): (r: int32)
    ensures (r as int - v as int - 1) % 0x1_0000_0000 == 0
    ensures v as int < 0x7fff_ffff ==> r as int == v as int + 1
  {
    if v == 0x7fff_ffff then -0x8000_0000 else v + 1
  }

  /** A value read from, or written into, a mapped record through a column accessor. */
  datatype Value = IntVal(i: int32) | StrVal(s: string) | NullVal

  /** One `PreparedStatement.setObject(position, value)` call. */
  datatype Binding = Binding(position: int, value: Value)

  /** A connection reduced to what the persistence code observes when it runs one statement:
      the affected-row count returned by `executeUpdate` and the rows of `getGeneratedKeys`,
      each read with `getInt(1)`. */
  datatype Connection = Connection(affectedRows: int, generatedKeys: seq<int32>)
}
