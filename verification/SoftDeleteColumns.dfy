/** Column values and the soft-delete column, shared by the tenancy client's read and write
    models. */
module SoftDeleteColumns {
  datatype Val = Null | At(time: int) | Num(n: int) | Text(s: string)

  type Columns = map<string, Val>

  const DELETED_AT := "deletedAt"

  /** A column that was never written is null. */
  function ValueOf(c: Columns, name: string): Val { if name in c then c[name] else Null }

  predicate Live(c: Columns) { ValueOf(c, DELETED_AT) == Null }
}
