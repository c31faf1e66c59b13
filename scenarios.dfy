/**
 * Scenarios from `cache/component_cache_test.go`, proved from the
 * contracts of the cache's methods alone.
 */
module CacheScenarios {
  import opened Models
  import opened CacheSpec
  import opened CacheLemmas
  import opened Cache

  function Root(id: int, name: string): Component
  {
    Component(id, name, "", Null, "", "")
  }

  function Child(id: int, name: string, parent: int): Component
  {
    Component(id, name, "", NullInt64(true, parent), "", "")
  }

  /** Filtering a listing extended by one entity extends the filtered listing by at most that entity. */
  lemma ChildrenOfSnoc(s: seq<Component>, x: Component, k: int)
    ensures ChildrenOf(s + [x], k) == ChildrenOf(s, k) + (if ParentKey(x.parentId) == k then [x] else [])
  {
  }

  /** In the Delete tests' snapshot, exactly 200 and 300 are filed under 100. */
  lemma DeleteTestChildren(c100: Component, c200: Component, c300: Component, c400: Component)
    requires c100.parentId == c400.parentId == Null
    requires c200.parentId == c300.parentId == NullInt64(true, 100)
    ensures ChildrenOf([c100, c200, c300, c400], 100) == [c200, c300]
  {
    assert ParentKey(c100.parentId) == ParentKey(c400.parentId) == RootParentIdKey;
    assert ParentKey(c200.parentId) == ParentKey(c300.parentId) == 100;
    assert [] + [c100] == [c100] && [c100] + [c200] == [c100, c200];
    assert [c100, c200] + [c300] == [c100, c200, c300];
    assert [c100, c200, c300] + [c400] == [c100, c200, c300, c400];
    ChildrenOfSnoc([], c100, 100);
    ChildrenOfSnoc([c100], c200, 100);
    ChildrenOfSnoc([c100, c200], c300, 100);
    ChildrenOfSnoc([c100, c200, c300], c400, 100);
  }

  /**
   * The Delete tests' snapshot, deleted parent 100: the parent is gone,
   * child 200 is still cached, the listing holds three entities, and the
   * bucket of 100 still holds both children.
   */
  lemma DeleteTestState(c100: Component, c200: Component, c300: Component, c400: Component)
    requires c100.id == 100 && c200.id == 200 && c300.id == 300 && c400.id == 400
    requires c100.parentId == c400.parentId == Null
    requires c200.parentId == c300.parentId == NullInt64(true, 100)
    ensures var st := Remove(Snapshot([c100, c200, c300, c400]), 100);
      && 100 !in st.byId && 200 in st.byId && st.byId[200] == c200
      && |st.all| == 3
      && 100 in st.buckets && st.buckets[100] == [c200, c300]
  {
    var s := [c100, c200, c300, c400];
    var st := Snapshot(s);
    assert DistinctIds(s);
    SnapshotInv(s);
    IndexByIdFacts(s);
    assert s[0] == c100 && s[1] == c200;
    assert ParentKey(c100.parentId) == RootParentIdKey;
    DeleteTestChildren(c100, c200, c300, c400);
    GroupByParentFacts(s);
    RemoveEffect(st, 100);
    RemoveKeepsChildren(st, 100);
  }

  /**
   * Deleting a parent removes only the parent: both children stay cached,
   * and the bucket keyed by the deleted parent still holds them, so
   * GetChildren on it still reports them as found.
   */
  method DeleteParentKeepsChildren()
  {
    var c100, c200, c300, c400 :=
      Root(100, "Del_C100"), Child(200, "Del_C200", 100), Child(300, "Del_C300", 100), Root(400, "Del_C400");
    var snapshot := [c100, c200, c300, c400];
    DeleteTestState(c100, c200, c300, c400);
    var cache, err := InitGlobalCache(Ok(snapshot));
    assert err == None;

    cache.Delete(100);

    var gone := cache.GetById(100);
    assert gone == None;
    var kept := cache.GetById(200);
    assert kept == Some(c200);
    var all := cache.GetAll();
    assert |all| == 3;
    var children, found := cache.GetChildren(100);
    assert found && children == [c200, c300];
  }

  /** In the re-parenting test's snapshot, only 20 is filed under 10 and nothing under 30. */
  lemma ReparentTestChildren(c10: Component, c20: Component, c30: Component)
    requires c10.parentId == c30.parentId == Null && c20.parentId == NullInt64(true, 10)
    ensures ChildrenOf([c10, c20, c30], 10) == [c20]
    ensures ChildrenOf([c10, c20, c30], 30) == []
  {
    assert ParentKey(c10.parentId) == ParentKey(c30.parentId) == RootParentIdKey;
    assert ParentKey(c20.parentId) == 10;
    assert [] + [c10] == [c10] && [c10] + [c20] == [c10, c20] && [c10, c20] + [c30] == [c10, c20, c30];
    ChildrenOfSnoc([], c10, 10);
    ChildrenOfSnoc([c10], c20, 10);
    ChildrenOfSnoc([c10, c20], c30, 10);
    ChildrenOfSnoc([], c10, 30);
    ChildrenOfSnoc([c10], c20, 30);
    ChildrenOfSnoc([c10, c20], c30, 30);
  }

  /**
   * The re-parenting test's snapshot, after 20 is set with parent 30: the
   * bucket of 10 is gone and the bucket of 30 holds only the moved entity.
   */
  lemma ReparentTestBuckets(c10: Component, c20: Component, c30: Component, moved: Component)
    requires c10.id == 10 && c20.id == 20 && c30.id == 30 && moved.id == 20
    requires c10.parentId == c30.parentId == Null
    requires c20.parentId == NullInt64(true, 10) && moved.parentId == NullInt64(true, 30)
    ensures var st := Upsert(Snapshot([c10, c20, c30]), moved);
      && 10 !in st.buckets
      && 30 in st.buckets && st.buckets[30] == [moved]
  {
    var s := [c10, c20, c30];
    var st := Snapshot(s);
    assert DistinctIds(s);
    SnapshotInv(s);
    assert ParentKey(moved.parentId) == 30;
    ReparentTestChildren(c10, c20, c30);
    GroupByParentFacts(s);
    assert [c20][..0] == [] && Without([c20], 20) == [];
    UpsertBuckets(st, moved);
  }

  /**
   * Re-parenting 20 from 10 to 30 empties and prunes the bucket of 10 and
   * makes 20 the only child of 30.
   */
  method ReparentMovesChild()
  {
    var c10, c20, c30 := Root(10, "R_C10"), Child(20, "R_C20", 10), Root(30, "R_C30_NewParent");
    var cache, err := InitGlobalCache(Ok([c10, c20, c30]));
    var moved := Child(20, "R_C20_Reparented", 30);
    ReparentTestBuckets(c10, c20, c30, moved);
    cache.Set(Some(moved));

    var byId := cache.GetById(20);
    assert byId == Some(moved);
    var of10, found10 := cache.GetChildren(10);
    assert !found10 && of10 == [];
    var of30, found30 := cache.GetChildren(30);
    assert found30 && of30 == [moved];
  }
}
