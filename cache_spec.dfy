/**
 * The cache's three structures as one value, and what each mutation of
 * `cache/component_cache.go` does to that value. The class in module
 * `Cache` is proved to compute exactly these functions; the lemmas in
 * module `CacheLemmas` state what the functions guarantee.
 */
module CacheSpec {
  import opened Models

  /** Bucket key of every component whose parent is NULL. */
  const RootParentIdKey: int := 0

  /**
   * The bucket a component is filed under: the parent id when it is
   * present, the root key when it is NULL. A present parent id of 0
   * therefore shares the root bucket.
   */
  function ParentKey(p: NullInt64): (k: int)
    ensures p.valid ==> k == p.int64
    ensures !p.valid ==> k == RootParentIdKey
  {
    if p.valid then p.int64 else RootParentIdKey
  }

  /* ---------------------------------------------------------------------
   * Sequences of components
   * ------------------------------------------------------------------- */

  /** No id occurs twice. */
  ghost predicate DistinctIds(s: seq<Component>)
  {
    forall i, j :: 0 <= i < j < |s| ==> s[i].id != s[j].id
  }

  /** Some element carries this id. */
  ghost predicate HasId(s: seq<Component>, id: int)
  {
    exists i :: 0 <= i < |s| && s[i].id == id
  }

  /** The set of ids that occur in `s`. */
  ghost function IdSet(s: seq<Component>): set<int>
  {
    set i | 0 <= i < |s| :: s[i].id
  }

  /**
   * `s` without the elements carrying `id`, in the original order: what
   * the copy-unless-equal loops of Delete and removeChildFromParent build.
   * Defined from the back, the order in which those loops grow their result.
   */
  function Without(s: seq<Component>, id: int): (r: seq<Component>)
    ensures |r| <= |s|
  {
    if s == [] then []
    else
      var last := s[|s| - 1];
      Without(s[..|s| - 1], id) + (if last.id == id then [] else [last])
  }

  /** The position of the first element carrying `id`, if any. */
  function IndexOfId(s: seq<Component>, id: int): (r: Option<nat>)
    ensures r.Some? ==> r.value < |s| && s[r.value].id == id
    ensures r.Some? ==> forall j :: 0 <= j < r.value ==> s[j].id != id
    ensures r.None? <==> !HasId(s, id)
  {
    if s == [] then None
    else if s[0].id == id then Some(0)
    else
      match IndexOfId(s[1..], id)
      case None =>
        assert forall j :: 1 <= j < |s| ==> s[j] == s[1..][j - 1];
        None
      case Some(i) => Some(i + 1)
  }

  /**
   * The flat listing after an upsert of `e`: the first slot with `e`'s id
   * is overwritten, and `e` is appended when no slot has it.
   */
  function ReplaceOrAppend(s: seq<Component>, e: Component): seq<Component>
  {
    match IndexOfId(s, e.id)
    case Some(i) => s[i := e]
    case None => s + [e]
  }

  /** All elements of `s` filed under bucket `k`, in the order of `s`. */
  function ChildrenOf(s: seq<Component>, k: int): seq<Component>
  {
    if s == [] then []
    else
      var last := s[|s| - 1];
      ChildrenOf(s[..|s| - 1], k) + (if ParentKey(last.parentId) == k then [last] else [])
  }

  /* ---------------------------------------------------------------------
   * Cache state
   * ------------------------------------------------------------------- */

  /** The by-id index, the by-parent index and the flat listing. */
  datatype State = State(
    byId: map<int, Component>,
    buckets: map<int, seq<Component>>,
    all: seq<Component>)

  /** The state of a freshly created cache. */
  const EmptyState := State(map[], map[], [])

  /**
   * Bucket `k`, or the empty sequence when there is no such bucket: the
   * value Go's map lookup yields for a missing key.
   */
  function Bucket(b: map<int, seq<Component>>, k: int): seq<Component>
  {
    if k in b then b[k] else []
  }

  /** The flat listing holds every indexed component once, and nothing else. */
  ghost predicate ListingMatchesIndex(st: State)
  {
    && DistinctIds(st.all)
    && (forall c :: c in st.all ==> c.id in st.byId && st.byId[c.id] == c)
    && (forall id :: id in st.byId ==> st.byId[id] in st.all)
  }

  /**
   * Buckets are non-empty and duplicate-free, hold only indexed components
   * filed under their own parent key, and every indexed component is in
   * the bucket of its parent key.
   */
  ghost predicate BucketsMatchIndex(st: State)
  {
    && (forall k :: k in st.buckets ==> st.buckets[k] != [] && DistinctIds(st.buckets[k]))
    && (forall k, c :: k in st.buckets && c in st.buckets[k] ==>
          c.id in st.byId && st.byId[c.id] == c && ParentKey(c.parentId) == k)
    && (forall id :: id in st.byId ==>
          st.byId[id] in Bucket(st.buckets, ParentKey(st.byId[id].parentId)))
  }

  /** The consistency the three structures keep with each other. */
  ghost predicate Inv(st: State)
  {
    && (forall id :: id in st.byId ==> st.byId[id].id == id)
    && ListingMatchesIndex(st)
    && BucketsMatchIndex(st)
  }

  /* ---------------------------------------------------------------------
   * Operations (cache/component_cache.go)
   * ------------------------------------------------------------------- */

  /**
   * removeChildFromParent: filter `childId` out of bucket `parentKey`,
   * drop the bucket when nothing is left, store the filtered bucket only
   * when it shrank, and leave everything alone when there is no bucket.
   */
  function RemoveChild(b: map<int, seq<Component>>, childId: int, parentKey: int): map<int, seq<Component>>
  {
    if parentKey !in b then b
    else
      var updated := Without(b[parentKey], childId);
      if |updated| == 0 then b - {parentKey}
      else if |updated| < |b[parentKey]| then b[parentKey := updated]
      else b
  }

  /**
   * The first step of Set: when `e`'s id is cached with a different parent
   * VALUE (both fields of the nullable column are compared), remove the
   * cached entity from the bucket of its old parent key.
   */
  function Detach(st: State, e: Component): map<int, seq<Component>>
  {
    if e.id in st.byId && st.byId[e.id].parentId != e.parentId
    then RemoveChild(st.buckets, st.byId[e.id].id, ParentKey(st.byId[e.id].parentId))
    else st.buckets
  }

  /**
   * Set: detach from the old bucket; store `e` by id; replace-or-append it
   * in the flat listing; filter it out of its new bucket and append it there.
   */
  function Upsert(st: State, e: Component): State
  {
    var b1 := Detach(st, e);
    var k := ParentKey(e.parentId);
    var b2 := RemoveChild(b1, e.id, k);
    State(st.byId[e.id := e], b2[k := Bucket(b2, k) + [e]], ReplaceOrAppend(st.all, e))
  }

  /**
   * Delete: nothing when the id is not cached; otherwise drop it from the
   * index, filter it out of the flat listing and out of its own parent's
   * bucket. Buckets keyed by the deleted id are not touched.
   */
  function Remove(st: State, id: int): State
  {
    if id !in st.byId then st
    else
      State(
        st.byId - {id},
        RemoveChild(st.buckets, id, ParentKey(st.byId[id].parentId)),
        Without(st.all, id))
  }

  /** The by-id index built from a snapshot: a later entry overwrites an earlier one. */
  function IndexById(s: seq<Component>): map<int, Component>
  {
    if s == [] then map[]
    else
      var last := s[|s| - 1];
      IndexById(s[..|s| - 1])[last.id := last]
  }

  /** The by-parent index built from a snapshot, appending in snapshot order. */
  function GroupByParent(s: seq<Component>): map<int, seq<Component>>
  {
    if s == [] then map[]
    else
      var last := s[|s| - 1];
      var g := GroupByParent(s[..|s| - 1]);
      var k := ParentKey(last.parentId);
      g[k := Bucket(g, k) + [last]]
  }

  /** The state InitGlobalCache builds from a successfully listed snapshot. */
  function Snapshot(s: seq<Component>): State
  {
    State(IndexById(s), GroupByParent(s), s)
  }
}
