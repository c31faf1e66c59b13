/**
 * The one pure fragment of `store/component_store.go` that decides what
 * the cache later sees: the parent id written on create and update.
 */
module Store {
  import opened Models
  import opened CacheSpec

  /**
   * A parent id is written only when it is present and non-zero; any
   * other value is written as NULL. The result never names parent 0, and
   * it is filed under the same bucket as the value it came from.
   */
  function NormalizeParentId(p: NullInt64): (r: NullInt64)
    ensures r.valid ==> r.int64 != 0
    ensures r.valid <==> p.valid && p.int64 != 0
    ensures ParentKey(r) == ParentKey(p)
  {
    if p.valid && p.int64 != 0 then p else Null
  }

  /**
   * Two parent ids normalise to the same stored value exactly when they
   * select the same bucket: after normalisation, the NULL parent and a
   * present parent of 0 can no longer differ.
   */
  lemma NormalizeAgreesWithParentKey(p: NullInt64, q: NullInt64)
    ensures NormalizeParentId(p) == NormalizeParentId(q) <==> ParentKey(p) == ParentKey(q)
  {
  }
}
