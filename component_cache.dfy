/**
 * The in-memory component cache of `cache/component_cache.go`: a by-id
 * index, a by-parent index and a flat listing, updated in place. Every
 * method is proved to compute the matching function of module `CacheSpec`,
 * and the mutations are proved to keep the consistency invariant.
 */
module Cache {
  import opened Models
  import opened CacheSpec
  import opened CacheLemmas

  /** Prefix of the error InitGlobalCache returns when listing fails. */
  const InitErrorPrefix := "failed to list components for cache initialization: "

  /**
   * The copy-unless-equal loop shared by Delete and removeChildFromParent:
   * keep, in order, every element whose id is not `id`.
   */
  method FilterOutId(s: seq<Component>, id: int) returns (r: seq<Component>)
    ensures r == Without(s, id)
  {
    r := [];
    var i := 0;
    while i < |s|
      invariant 0 <= i <= |s|
      invariant r == Without(s[..i], id)
    {
      assert s[..i + 1][..i] == s[..i];
      if s[i].id != id {
        r := r + [s[i]];
      }
      i := i + 1;
    }
    assert s[..i] == s;
  }

  class ComponentCache {
    var componentsById: map<int, Component>
    var childrenByParentId: map<int, seq<Component>>
    var allComponents: seq<Component>

    /** The three structures as one value. */
    ghost function Abs(): State
      reads this
    {
      State(componentsById, childrenByParentId, allComponents)
    }

    /** The three structures are consistent with each other. */
    ghost predicate Valid()
      reads this
    {
      Inv(Abs())
    }

    /** NewComponentCache: an empty cache. */
    constructor ()
      ensures Abs() == EmptyState && Valid()
    {
      componentsById := map[];
      childrenByParentId := map[];
      allComponents := [];
    }

    /**
     * removeChildFromParent: filter `childId` out of bucket `parentKey`,
     * dropping the bucket when it becomes empty.
     */
    method RemoveChildFromParent(childId: int, parentKey: int)
      modifies this`childrenByParentId
      ensures childrenByParentId == RemoveChild(old(childrenByParentId), childId, parentKey)
      ensures Bucket(childrenByParentId, parentKey) == Without(Bucket(old(childrenByParentId), parentKey), childId)
      ensures forall k :: k != parentKey ==>
        (k in childrenByParentId <==> k in old(childrenByParentId)) &&
        Bucket(childrenByParentId, k) == Bucket(old(childrenByParentId), k)
      ensures parentKey in childrenByParentId <==> Bucket(childrenByParentId, parentKey) != []
    {
      RemoveChildFacts(childrenByParentId, childId, parentKey);
      if parentKey !in childrenByParentId {
        return;
      }
      var children := childrenByParentId[parentKey];
      var updatedChildren := FilterOutId(children, childId);
      if |updatedChildren| == 0 {
        childrenByParentId := childrenByParentId - {parentKey};
      } else if |updatedChildren| < |children| {
        childrenByParentId := childrenByParentId[parentKey := updatedChildren];
      }
    }

    /**
     * Set: upsert one component; `None` stands for a nil argument. The
     * component is then returned by id, its listing slot is replaced or
     * appended, and it is the last element of its parent key's bucket.
     */
    method Set(component: Option<Component>)
      modifies this
      ensures component.None? ==> Abs() == old(Abs())
      ensures component.Some? ==> Abs() == Upsert(old(Abs()), component.value)
      ensures component.Some? ==>
        componentsById == old(componentsById)[component.value.id := component.value]
      ensures old(Valid()) ==> Valid()
    {
      if component.None? {
        return;
      }
      var e := component.value;
      ghost var st := Abs();

      if e.id in componentsById {
        var oldComp := componentsById[e.id];
        if oldComp.parentId != e.parentId {
          RemoveChildFromParent(oldComp.id, ParentKey(oldComp.parentId));
        }
      }
      assert childrenByParentId == Detach(st, e);

      componentsById := componentsById[e.id := e];

      // replace the listing slot of e.id, or append e
      var foundInAll := false;
      var i := 0;
      while i < |allComponents|
        invariant 0 <= i <= |allComponents|
        invariant allComponents == st.all
        invariant forall j :: 0 <= j < i ==> st.all[j].id != e.id
      {
        if allComponents[i].id == e.id {
          assert IndexOfId(st.all, e.id) == Some(i);
          allComponents := allComponents[i := e];
          foundInAll := true;
          break;
        }
        i := i + 1;
      }
      if !foundInAll {
        assert IndexOfId(st.all, e.id) == None;
        allComponents := allComponents + [e];
      }
      assert allComponents == ReplaceOrAppend(st.all, e);

      var newParentKey := ParentKey(e.parentId);
      RemoveChildFromParent(e.id, newParentKey);
      childrenByParentId := childrenByParentId[newParentKey := Bucket(childrenByParentId, newParentKey) + [e]];

      if Inv(st) {
        UpsertKeepsInv(st, e);
      }
    }

    /**
     * Delete: drop the component with this id from the index, the listing
     * and its own parent's bucket; nothing happens when it is not cached.
     */
    method Delete(componentId: int)
      modifies this
      ensures Abs() == Remove(old(Abs()), componentId)
      ensures componentId !in old(componentsById) ==> Abs() == old(Abs())
      ensures componentsById == old(componentsById) - {componentId}
      ensures old(Valid()) ==> Valid()
    {
      ghost var st := Abs();
      if componentId !in componentsById {
        return;
      }
      var component := componentsById[componentId];
      componentsById := componentsById - {componentId};

      allComponents := FilterOutId(allComponents, componentId);

      var parentKey := ParentKey(component.parentId);
      RemoveChildFromParent(componentId, parentKey);

      if Inv(st) {
        RemoveKeepsInv(st, componentId);
      }
    }

    /** GetByID: the cached component with this id, if any. */
    method GetById(id: int) returns (r: Option<Component>)
      ensures r.Some? <==> id in componentsById
      ensures r.Some? ==> r.value == componentsById[id]
    {
      if id !in componentsById {
        return None;
      }
      return Some(componentsById[id]);
    }

    /** GetAll: a copy of the flat listing, one element per cached component. */
    method GetAll() returns (r: seq<Component>)
      ensures r == allComponents
      ensures Valid() ==> |r| == |componentsById|
    {
      r := [];
      var i := 0;
      while i < |allComponents|
        invariant 0 <= i <= |allComponents|
        invariant r == allComponents[..i]
      {
        r := r + [allComponents[i]];
        i := i + 1;
      }
      if Valid() {
        ListingSize(Abs());
      }
    }

    /**
     * GetChildren: a copy of bucket `parentId` and true when that bucket
     * exists and is not empty; otherwise an empty sequence and false.
     */
    method GetChildren(parentId: int) returns (children: seq<Component>, found: bool)
      ensures found <==> parentId in childrenByParentId && childrenByParentId[parentId] != []
      ensures children == Bucket(childrenByParentId, parentId)
    {
      if parentId !in childrenByParentId || |childrenByParentId[parentId]| == 0 {
        return [], false;
      }
      var bucket := childrenByParentId[parentId];
      children := [];
      var i := 0;
      while i < |bucket|
        invariant 0 <= i <= |bucket|
        invariant children == bucket[..i]
      {
        children := children + [bucket[i]];
        i := i + 1;
      }
      found := true;
    }
  }

  /**
   * InitGlobalCache: a fresh cache, filled from the listed snapshot in one
   * pass. When listing fails the error is wrapped and the cache is the
   * fresh, empty one.
   */
  method InitGlobalCache(listed: Result<seq<Component>>) returns (cache: ComponentCache, err: Option<string>)
    ensures fresh(cache)
    ensures listed.Err? ==> err == Some(InitErrorPrefix + listed.error) && cache.Abs() == EmptyState
    ensures listed.Ok? ==> err == None && cache.Abs() == Snapshot(listed.value)
    ensures listed.Ok? ==> |cache.allComponents| == |listed.value|
    ensures listed.Ok? && DistinctIds(listed.value) ==> cache.Valid()
  {
    cache := new ComponentCache();
    if listed.Err? {
      return cache, Some(InitErrorPrefix + listed.error);
    }
    var components := listed.value;

    var tempComponentsById: map<int, Component> := map[];
    var tempChildrenByParentId: map<int, seq<Component>> := map[];
    var tempAllComponents: seq<Component> := [];
    var i := 0;
    while i < |components|
      invariant 0 <= i <= |components|
      invariant tempComponentsById == IndexById(components[..i])
      invariant tempChildrenByParentId == GroupByParent(components[..i])
      invariant tempAllComponents == components[..i]
    {
      var compCopy := components[i];
      assert components[..i + 1][..i] == components[..i];
      tempComponentsById := tempComponentsById[compCopy.id := compCopy];
      tempAllComponents := tempAllComponents + [compCopy];
      var parentKey: int;
      if compCopy.parentId.valid {
        parentKey := compCopy.parentId.int64;
      } else {
        parentKey := RootParentIdKey;
      }
      tempChildrenByParentId :=
        tempChildrenByParentId[parentKey := Bucket(tempChildrenByParentId, parentKey) + [compCopy]];
      i := i + 1;
    }
    assert components[..i] == components;

    cache.componentsById := tempComponentsById;
    cache.childrenByParentId := tempChildrenByParentId;
    cache.allComponents := tempAllComponents;
    if DistinctIds(components) {
      SnapshotInv(components);
    }
    return cache, None;
  }
}
