/**
 * The record the cache stores: one node of the component tree.
 */
module Models {

  datatype Option<T> = None | Some(value: T)

  datatype Result<T> = Ok(value: T) | Err(error: string)

  /**
   * A nullable 64-bit integer column. As in Go's `sql.NullInt64`, the
   * integer field keeps whatever value it holds even when `valid` is false,
   * and two values are equal only when BOTH fields are equal: so
   * `NullInt64(false, 0)` and `NullInt64(true, 0)` are different values.
   */
  datatype NullInt64 = NullInt64(valid: bool, int64: int)

  /** The zero value of a nullable column: SQL NULL. */
  const Null := NullInt64(false, 0)

  /**
   * A component. Timestamps are opaque strings that the cache passes
   * through unchanged.
   */
  datatype Component = Component(
    id: int,
    name: string,
    description: string,
    parentId: NullInt64,
    createdAt: string,
    updatedAt: string)
}
