/** The typed-row vocabulary of the storage API: column classes, column values
    and rows (`Storeable`). The Java class hierarchy is reduced to what the
    engine asks of it: which classes may declare a column, and whether a value's
    runtime class can be stored in a column of a declared class. */
module Columns {
  import opened Wrappers

  /** A `java.lang.Class` as it appears in a table signature or as a value's runtime class. */
  datatype JClass =
    | IntegerClass
    | LongClass
    | ByteClass
    | FloatClass
    | DoubleClass
    | BooleanClass
    | StringClass
    | ObjectClass
    | OtherClass(name: string)

  /** The classes a column may be declared with (the classes `TypeName` knows). */
  predicate Supported(c: JClass)
  {
    c in {IntegerClass, LongClass, ByteClass, FloatClass, DoubleClass, BooleanClass, StringClass}
  }

  /** `declared.isAssignableFrom(actual)`: every supported class is final, so a
      value fits its own class and `Object` only. */
  predicate Assignable(declared: JClass, actual: JClass)
  {
    declared == actual || declared == ObjectClass
  }

  /** A non-null column value: its runtime class and its content. */
  datatype Value = Value(cls: JClass, content: string)

  /** A row (`TableRow`): the declared class of each column and the value held
      in it, `None` for a null column. */
  datatype Row = Row(columnTypes: seq<JClass>, cells: seq<Option<Value>>)
}
