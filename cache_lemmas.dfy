/**
 * What the cache operations guarantee: each keeps the consistency
 * invariant, Set is a round trip that moves rather than duplicates and is
 * idempotent, Delete removes exactly one entity without cascading, and
 * initialisation files every snapshot entity where it belongs.
 */
module CacheLemmas {
  import opened Models
  import opened CacheSpec

  /* ---------------------------------------------------------------------
   * Filtering by id
   * ------------------------------------------------------------------- */

  /** Filtering keeps exactly the elements with another id. */
  lemma {:induction false} WithoutMembers(s: seq<Component>, id: int)
    ensures forall c :: c in Without(s, id) <==> c in s && c.id != id
  {
    if s != [] {
      var p := s[..|s| - 1];
      WithoutMembers(p, id);
      assert s == p + [s[|s| - 1]];
    }
  }

  /** Filtering a duplicate-free sequence leaves it duplicate-free. */
  lemma {:induction false} WithoutDistinct(s: seq<Component>, id: int)
    requires DistinctIds(s)
    ensures DistinctIds(Without(s, id))
  {
    if s != [] {
      var p, last := s[..|s| - 1], s[|s| - 1];
      assert DistinctIds(p) by {
        forall i, j | 0 <= i < j < |p| ensures p[i].id != p[j].id {
          assert p[i] == s[i] && p[j] == s[j];
        }
      }
      WithoutDistinct(p, id);
      WithoutMembers(p, id);
      var w := Without(p, id);
      if last.id != id {
        forall i | 0 <= i < |w| ensures w[i].id != last.id {
          assert w[i] in p;
          var j :| 0 <= j < |p| && p[j] == w[i];
          assert s[j] == w[i];
        }
        assert Without(s, id) == w + [last];
      } else {
        assert Without(s, id) == w;
      }
    }
  }

  /** Filtering out an id that does not occur changes nothing. */
  lemma {:induction false} WithoutAbsent(s: seq<Component>, id: int)
    requires !HasId(s, id)
    ensures Without(s, id) == s
  {
    if s != [] {
      var p := s[..|s| - 1];
      assert !HasId(p, id) by {
        forall i | 0 <= i < |p| ensures p[i].id != id {
          assert p[i] == s[i];
        }
      }
      WithoutAbsent(p, id);
      assert s == p + [s[|s| - 1]];
    }
  }

  /** Filtering out an id that occurs makes the sequence shorter. */
  lemma {:induction false} WithoutShrinks(s: seq<Component>, id: int)
    requires HasId(s, id)
    ensures |Without(s, id)| < |s|
  {
    var p, last := s[..|s| - 1], s[|s| - 1];
    if last.id != id {
      var i :| 0 <= i < |s| && s[i].id == id;
      assert p[i] == s[i];
      WithoutShrinks(p, id);
    }
  }

  /** Filtering out an id that occurs exactly once removes exactly one element. */
  lemma {:induction false} WithoutCount(s: seq<Component>, id: int)
    requires DistinctIds(s) && HasId(s, id)
    ensures |Without(s, id)| == |s| - 1
  {
    var p, last := s[..|s| - 1], s[|s| - 1];
    assert DistinctIds(p) by {
      forall i, j | 0 <= i < j < |p| ensures p[i].id != p[j].id {
        assert p[i] == s[i] && p[j] == s[j];
      }
    }
    if last.id == id {
      assert !HasId(p, id) by {
        forall i | 0 <= i < |p| ensures p[i].id != id {
          assert p[i] == s[i];
        }
      }
      WithoutAbsent(p, id);
    } else {
      var i :| 0 <= i < |s| && s[i].id == id;
      assert p[i] == s[i];
      WithoutCount(p, id);
    }
  }

  /** After filtering, the id no longer occurs. */
  lemma WithoutRemovesId(s: seq<Component>, id: int)
    ensures !HasId(Without(s, id), id)
  {
  }

  /** Filtering is idempotent. */
  lemma WithoutTwice(s: seq<Component>, id: int)
    ensures Without(Without(s, id), id) == Without(s, id)
  {
    WithoutRemovesId(s, id);
    WithoutAbsent(Without(s, id), id);
  }

  /** Filtering the id of an element just appended undoes the append. */
  lemma WithoutLastAppended(t: seq<Component>, e: Component)
    requires !HasId(t, e.id)
    ensures Without(t + [e], e.id) == t
  {
    var s := t + [e];
    assert s[..|s| - 1] == t;
    WithoutAbsent(t, e.id);
  }

  /** A sequence with no repeated id has as many ids as elements. */
  lemma {:induction false} IdSetSize(s: seq<Component>)
    requires DistinctIds(s)
    ensures |IdSet(s)| == |s|
  {
    if s != [] {
      var p, last := s[..|s| - 1], s[|s| - 1];
      assert DistinctIds(p) by {
        forall i, j | 0 <= i < j < |p| ensures p[i].id != p[j].id {
          assert p[i] == s[i] && p[j] == s[j];
        }
      }
      IdSetSize(p);
      assert IdSet(s) == IdSet(p) + {last.id} by {
        forall x | x in IdSet(s) ensures x in IdSet(p) + {last.id} {
          var i :| 0 <= i < |s| && s[i].id == x;
          if i < |p| { assert p[i] == s[i]; }
        }
        forall x | x in IdSet(p) ensures x in IdSet(s) {
          var i :| 0 <= i < |p| && p[i].id == x;
          assert s[i] == p[i];
        }
      }
      forall i | 0 <= i < |p| ensures p[i].id != last.id {
        assert p[i] == s[i];
      }
      assert last.id !in IdSet(p);
    }
  }

  /* ---------------------------------------------------------------------
   * Replace-or-append in the flat listing
   * ------------------------------------------------------------------- */

  /**
   * On a duplicate-free listing, replace-or-append overwrites the one slot
   * carrying `e`'s id, or appends `e` when there is none; the result is
   * duplicate-free and holds `e` and every element with another id.
   */
  lemma ReplaceOrAppendFacts(s: seq<Component>, e: Component)
    requires DistinctIds(s)
    ensures var r := ReplaceOrAppend(s, e);
      && DistinctIds(r)
      && (forall c :: c in r <==> c == e || (c in s && c.id != e.id))
      && (HasId(s, e.id) ==>
            |r| == |s| && forall i :: 0 <= i < |s| ==> r[i] == (if s[i].id == e.id then e else s[i]))
      && (!HasId(s, e.id) ==> r == s + [e])
  {
    var r := ReplaceOrAppend(s, e);
    match IndexOfId(s, e.id)
    case Some(i) =>
      assert r == s[i := e] && r[i] == e;
      forall c ensures c in r <==> c == e || (c in s && c.id != e.id) {
        if c in r && c != e {
          var j :| 0 <= j < |r| && r[j] == c;
          assert j != i && c == s[j];
        }
        if c in s && c.id != e.id {
          var j :| 0 <= j < |s| && s[j] == c;
          assert j != i && r[j] == c;
        }
      }
    case None =>
      assert r == s + [e];
      forall c | c in r ensures c == e || (c in s && c.id != e.id) {
        var j :| 0 <= j < |r| && r[j] == c;
        if j < |s| { assert s[j] == c; }
      }
  }

  /* ---------------------------------------------------------------------
   * removeChildFromParent
   * ------------------------------------------------------------------- */

  /**
   * Removing a child touches only the one bucket: that bucket becomes the
   * filtered bucket, and it is present afterwards exactly when the
   * filtered bucket is not empty.
   */
  lemma RemoveChildFacts(b: map<int, seq<Component>>, x: int, k: int)
    ensures var r := RemoveChild(b, x, k);
      && (forall k' :: k' != k ==> (k' in r <==> k' in b) && Bucket(r, k') == Bucket(b, k'))
      && Bucket(r, k) == Without(Bucket(b, k), x)
      && (k in r <==> Bucket(r, k) != [])
  {
    if k in b {
      var u := Without(b[k], x);
      if HasId(b[k], x) {
        WithoutShrinks(b[k], x);
      } else {
        WithoutAbsent(b[k], x);
      }
    }
  }

  /* ---------------------------------------------------------------------
   * Consequences of the invariant
   * ------------------------------------------------------------------- */

  /** Under the invariant, an id is in the flat listing exactly when it is indexed. */
  lemma ListedIffIndexed(st: State, id: int)
    requires Inv(st)
    ensures HasId(st.all, id) <==> id in st.byId
  {
  }

  /** Under the invariant, an id can only be in the bucket of its own parent key. */
  lemma OnlyInOwnBucket(st: State, id: int, k: int)
    requires Inv(st)
    requires id !in st.byId || k != ParentKey(st.byId[id].parentId)
    ensures !HasId(Bucket(st.buckets, k), id)
  {
  }

  /**
   * The by-id index and the flat listing hold the same ids, each once:
   * so the listing is exactly as long as the index is large.
   */
  lemma ListingSize(st: State)
    requires Inv(st)
    ensures IdSet(st.all) == st.byId.Keys
    ensures |st.all| == |st.byId|
  {
    forall id | id in st.byId ensures id in IdSet(st.all) {
      ListedIffIndexed(st, id);
    }
    IdSetSize(st.all);
    assert |st.byId| == |st.byId.Keys|;
  }

  /* ---------------------------------------------------------------------
   * Set
   * ------------------------------------------------------------------- */

  /**
   * Detaching touches at most the old bucket of `e`'s id, and afterwards
   * `e`'s id is in no bucket but possibly the one of `e`'s own parent key.
   */
  lemma DetachFacts(st: State, e: Component)
    requires Inv(st)
    ensures var b1, k := Detach(st, e), ParentKey(e.parentId);
      && (forall k' :: Without(Bucket(b1, k'), e.id) == Without(Bucket(st.buckets, k'), e.id))
      && (forall k' :: k' != k ==> Bucket(b1, k') == Without(Bucket(st.buckets, k'), e.id))
      && (forall k' :: k' in b1 <==> Bucket(b1, k') != [])
  {
    var b, k := st.buckets, ParentKey(e.parentId);
    var b1 := Detach(st, e);
    if e.id in st.byId && st.byId[e.id].parentId != e.parentId {
      var ok := ParentKey(st.byId[e.id].parentId);
      RemoveChildFacts(b, e.id, ok);
      forall k' ensures Without(Bucket(b1, k'), e.id) == Without(Bucket(b, k'), e.id)
        && Bucket(b1, k') == Without(Bucket(b, k'), e.id)
      {
        if k' == ok {
          WithoutTwice(Bucket(b, k'), e.id);
        } else {
          OnlyInOwnBucket(st, e.id, k');
          WithoutAbsent(Bucket(b, k'), e.id);
        }
      }
    } else {
      forall k' | k' != k ensures Bucket(b1, k') == Without(Bucket(b, k'), e.id) {
        OnlyInOwnBucket(st, e.id, k');
        WithoutAbsent(Bucket(b, k'), e.id);
      }
    }
  }

  /**
   * Detaching compares parent values, not parent keys: an unchanged value
   * leaves the buckets alone, and a changed one takes the id out of the old
   * parent key's bucket, even when that key is also the new one.
   */
  lemma DetachByParentValue(st: State, e: Component)
    requires Inv(st)
    ensures e.id !in st.byId || st.byId[e.id].parentId == e.parentId ==> Detach(st, e) == st.buckets
    ensures e.id in st.byId && st.byId[e.id].parentId != e.parentId ==>
      !HasId(Bucket(Detach(st, e), ParentKey(st.byId[e.id].parentId)), e.id)
  {
    if e.id in st.byId && st.byId[e.id].parentId != e.parentId {
      var ok := ParentKey(st.byId[e.id].parentId);
      RemoveChildFacts(st.buckets, e.id, ok);
      WithoutRemovesId(Bucket(st.buckets, ok), e.id);
    }
  }

  /**
   * After an upsert of `e` the bucket of `e`'s parent key is its former
   * contents without `e`'s id, followed by `e`; every other bucket merely
   * loses `e`'s id; and a bucket is present exactly when it is not empty.
   * So `e` is moved, never duplicated, and an old bucket left empty is gone.
   */
  lemma UpsertBuckets(st: State, e: Component)
    requires Inv(st)
    ensures var st', k := Upsert(st, e), ParentKey(e.parentId);
      && Bucket(st'.buckets, k) == Without(Bucket(st.buckets, k), e.id) + [e]
      && (forall k' :: k' != k ==> Bucket(st'.buckets, k') == Without(Bucket(st.buckets, k'), e.id))
      && (forall k' :: k' in st'.buckets <==> Bucket(st'.buckets, k') != [])
  {
    DetachFacts(st, e);
    RemoveChildFacts(Detach(st, e), e.id, ParentKey(e.parentId));
  }

  /** Set keeps the flat listing in step with the by-id index. */
  lemma UpsertKeepsListing(st: State, e: Component)
    requires Inv(st)
    ensures ListingMatchesIndex(Upsert(st, e))
  {
    var st' := Upsert(st, e);
    ReplaceOrAppendFacts(st.all, e);
    forall id | id in st'.byId ensures st'.byId[id] in st'.all {
      if id != e.id {
        assert st.byId[id] in st.all;
      }
    }
  }

  /** After Set, one stored bucket is non-empty, duplicate-free and correctly filed. */
  lemma UpsertBucketAt(st: State, e: Component, k': int)
    requires Inv(st)
    requires k' in Upsert(st, e).buckets
    ensures var st' := Upsert(st, e);
      && st'.buckets[k'] != [] && DistinctIds(st'.buckets[k'])
      && forall c :: c in st'.buckets[k'] ==>
           c.id in st'.byId && st'.byId[c.id] == c && ParentKey(c.parentId) == k'
  {
    var st', k := Upsert(st, e), ParentKey(e.parentId);
    UpsertBuckets(st, e);
    var old_ := Bucket(st.buckets, k');
    var w := Without(old_, e.id);
    WithoutMembers(old_, e.id);
    assert DistinctIds(old_);
    WithoutDistinct(old_, e.id);
    assert Bucket(st'.buckets, k') == st'.buckets[k'];
    if k' == k {
      assert st'.buckets[k'] == w + [e];
      forall i | 0 <= i < |w| ensures w[i].id != e.id {
        assert w[i] in w;
      }
    }
    forall c | c in st'.buckets[k']
      ensures c.id in st'.byId && st'.byId[c.id] == c && ParentKey(c.parentId) == k'
    {
      if c != e || k' != k {
        if k' == k {
          assert c in w;
        }
        assert c in old_ && c.id != e.id;
      }
    }
  }

  /** After Set every cached entity is in the bucket of its parent key. */
  lemma UpsertKeepsFiling(st: State, e: Component)
    requires Inv(st)
    ensures var st' := Upsert(st, e);
      forall id | id in st'.byId ::
        st'.byId[id] in Bucket(st'.buckets, ParentKey(st'.byId[id].parentId))
  {
    var st' := Upsert(st, e);
    UpsertBuckets(st, e);
    forall id | id in st'.byId
      ensures st'.byId[id] in Bucket(st'.buckets, ParentKey(st'.byId[id].parentId))
    {
      if id != e.id {
        var c := st.byId[id];
        var pk := ParentKey(c.parentId);
        WithoutMembers(Bucket(st.buckets, pk), e.id);
        assert c in Without(Bucket(st.buckets, pk), e.id);
      }
    }
  }

  /** Set keeps the three structures consistent. */
  lemma UpsertKeepsInv(st: State, e: Component)
    requires Inv(st)
    ensures Inv(Upsert(st, e))
  {
    UpsertKeepsListing(st, e);
    forall k' | k' in Upsert(st, e).buckets {
      UpsertBucketAt(st, e, k');
    }
    UpsertKeepsFiling(st, e);
  }

  /**
   * Set overwrites the listing slot of an id already cached and appends a
   * new id at the end: the listing grows by one exactly for a new id.
   */
  lemma UpsertListing(st: State, e: Component)
    requires Inv(st)
    ensures var all' := Upsert(st, e).all;
      && |all'| == |st.all| + (if e.id in st.byId then 0 else 1)
      && (e.id in st.byId ==>
            forall i :: 0 <= i < |st.all| ==> all'[i] == (if st.all[i].id == e.id then e else st.all[i]))
      && (e.id !in st.byId ==> all' == st.all + [e])
  {
    ListedIffIndexed(st, e.id);
    ReplaceOrAppendFacts(st.all, e);
  }

  /** A second Set of the same entity leaves the flat listing as it is. */
  lemma UpsertAgainListing(s1: State, e: Component)
    requires Inv(s1) && e.id in s1.byId && s1.byId[e.id] == e
    ensures Upsert(s1, e).all == s1.all
  {
    var s2 := Upsert(s1, e);
    ListedIffIndexed(s1, e.id);
    ReplaceOrAppendFacts(s1.all, e);
    forall i | 0 <= i < |s1.all| ensures s2.all[i] == s1.all[i] {
      if s1.all[i].id == e.id {
        assert s1.all[i] in s1.all;
      }
    }
  }

  /** UpsertAgainBuckets for one key. */
  lemma UpsertAgainBucketAt(s1: State, e: Component, w: seq<Component>, k': int)
    requires Inv(s1) && e.id in s1.byId && s1.byId[e.id] == e
    requires Bucket(s1.buckets, ParentKey(e.parentId)) == w + [e] && !HasId(w, e.id)
    ensures var s2 := Upsert(s1, e);
      && Bucket(s2.buckets, k') == Bucket(s1.buckets, k')
      && (k' in s2.buckets <==> k' in s1.buckets)
  {
    UpsertBuckets(s1, e);
    if k' == ParentKey(e.parentId) {
      WithoutLastAppended(w, e);
    } else {
      OnlyInOwnBucket(s1, e.id, k');
      WithoutAbsent(Bucket(s1.buckets, k'), e.id);
    }
  }

  /**
   * A second Set of the same entity leaves the buckets as they are, when
   * the entity already sits last in its bucket and nowhere else.
   */
  lemma UpsertAgainBuckets(s1: State, e: Component, w: seq<Component>)
    requires Inv(s1) && e.id in s1.byId && s1.byId[e.id] == e
    requires Bucket(s1.buckets, ParentKey(e.parentId)) == w + [e] && !HasId(w, e.id)
    ensures Upsert(s1, e).buckets == s1.buckets
  {
    var s2 := Upsert(s1, e);
    forall k' ensures (k' in s2.buckets <==> k' in s1.buckets) && Bucket(s2.buckets, k') == Bucket(s1.buckets, k') {
      UpsertAgainBucketAt(s1, e, w, k');
    }
    assert forall k' :: k' in s2.buckets ==> s2.buckets[k'] == Bucket(s2.buckets, k');
  }

  /** Set of an entity already cached exactly as it would leave it changes nothing. */
  lemma UpsertAgain(s1: State, e: Component, w: seq<Component>)
    requires Inv(s1) && e.id in s1.byId && s1.byId[e.id] == e
    requires Bucket(s1.buckets, ParentKey(e.parentId)) == w + [e] && !HasId(w, e.id)
    ensures Upsert(s1, e) == s1
  {
    UpsertAgainListing(s1, e);
    UpsertAgainBuckets(s1, e, w);
    assert Upsert(s1, e).byId == s1.byId;
  }

  /** Calling Set twice with the same entity is the same as calling it once. */
  lemma UpsertIdempotent(st: State, e: Component)
    requires Inv(st)
    ensures Upsert(Upsert(st, e), e) == Upsert(st, e)
  {
    var k := ParentKey(e.parentId);
    UpsertKeepsInv(st, e);
    UpsertBuckets(st, e);
    var w := Without(Bucket(st.buckets, k), e.id);
    WithoutRemovesId(Bucket(st.buckets, k), e.id);
    UpsertAgain(Upsert(st, e), e, w);
  }

  /* ---------------------------------------------------------------------
   * Delete
   * ------------------------------------------------------------------- */

  /** Delete keeps the three structures consistent. */
  lemma RemoveKeepsInv(st: State, id: int)
    requires Inv(st)
    ensures Inv(Remove(st, id))
  {
    if id in st.byId {
      var st' := Remove(st, id);
      var pk := ParentKey(st.byId[id].parentId);
      WithoutMembers(st.all, id);
      WithoutDistinct(st.all, id);
      assert ListingMatchesIndex(st') by {
        forall x | x in st'.byId ensures st'.byId[x] in st'.all {
          assert st.byId[x] in st.all;
        }
      }
      RemoveChildFacts(st.buckets, id, pk);
      WithoutMembers(Bucket(st.buckets, pk), id);
      forall k | k in st'.buckets
        ensures st'.buckets[k] != [] && DistinctIds(st'.buckets[k])
        ensures forall c :: c in st'.buckets[k] ==>
          c.id in st'.byId && st'.byId[c.id] == c && ParentKey(c.parentId) == k
      {
        assert st'.buckets[k] == Bucket(st'.buckets, k);
        if k == pk {
          WithoutDistinct(st.buckets[k], id);
        } else {
          OnlyInOwnBucket(st, id, k);
          forall c | c in st'.buckets[k] ensures c.id != id {
            var i :| 0 <= i < |st.buckets[k]| && st.buckets[k][i] == c;
          }
        }
      }
      forall x | x in st'.byId
        ensures st'.byId[x] in Bucket(st'.buckets, ParentKey(st'.byId[x].parentId))
      {
        assert st.byId[x] in Bucket(st.buckets, ParentKey(st.byId[x].parentId));
      }
    }
  }

  /**
   * Delete of a cached id shortens the listing by one and leaves no trace
   * of the id in it; it filters the id out of its own parent's bucket and
   * leaves every other bucket and every other entity exactly as it was.
   */
  lemma RemoveEffect(st: State, id: int)
    requires Inv(st) && id in st.byId
    ensures var st', pk := Remove(st, id), ParentKey(st.byId[id].parentId);
      && |st'.all| == |st.all| - 1
      && !HasId(st'.all, id)
      && id !in st'.byId
      && (forall x :: x in st.byId && x != id ==> x in st'.byId && st'.byId[x] == st.byId[x])
      && Bucket(st'.buckets, pk) == Without(Bucket(st.buckets, pk), id)
      && (forall k :: k != pk ==> (k in st'.buckets <==> k in st.buckets) && Bucket(st'.buckets, k) == Bucket(st.buckets, k))
  {
    var pk := ParentKey(st.byId[id].parentId);
    ListedIffIndexed(st, id);
    WithoutCount(st.all, id);
    WithoutMembers(st.all, id);
    var all' := Without(st.all, id);
    assert !HasId(all', id) by {
      forall i | 0 <= i < |all'| ensures all'[i].id != id {
        assert all'[i] in all';
      }
    }
    RemoveChildFacts(st.buckets, id, pk);
  }

  /**
   * Delete does not cascade: the deleted entity's children stay cached
   * unchanged, and the bucket keyed by the deleted id stays as it was
   * (unless the entity was filed under its own id).
   */
  lemma RemoveKeepsChildren(st: State, p: int)
    requires Inv(st) && p in st.byId
    requires ParentKey(st.byId[p].parentId) != p
    ensures var st' := Remove(st, p);
      && (p in st'.buckets <==> p in st.buckets)
      && Bucket(st'.buckets, p) == Bucket(st.buckets, p)
      && (forall c :: c in Bucket(st.buckets, p) ==> c.id in st'.byId && st'.byId[c.id] == c)
  {
    RemoveChildFacts(st.buckets, p, ParentKey(st.byId[p].parentId));
    forall c | c in Bucket(st.buckets, p) ensures c.id != p {
      assert c in st.buckets[p];
    }
  }

  /* ---------------------------------------------------------------------
   * Initialisation from a snapshot
   * ------------------------------------------------------------------- */

  /**
   * The index built from a snapshot holds exactly the snapshot's ids, each
   * under its own id; without repeated ids it returns every snapshot entity
   * unchanged.
   */
  lemma {:induction false} IndexByIdFacts(s: seq<Component>)
    ensures IndexById(s).Keys == IdSet(s)
    ensures forall id :: id in IndexById(s) ==> IndexById(s)[id].id == id
    ensures DistinctIds(s) ==> forall i :: 0 <= i < |s| ==> IndexById(s)[s[i].id] == s[i]
  {
    if s != [] {
      var p, last := s[..|s| - 1], s[|s| - 1];
      IndexByIdFacts(p);
      assert IdSet(s) == IdSet(p) + {last.id} by {
        forall x | x in IdSet(s) ensures x in IdSet(p) + {last.id} {
          var i :| 0 <= i < |s| && s[i].id == x;
          if i < |p| { assert p[i] == s[i]; }
        }
        forall x | x in IdSet(p) ensures x in IdSet(s) {
          var i :| 0 <= i < |p| && p[i].id == x;
          assert s[i] == p[i];
        }
      }
      if DistinctIds(s) {
        assert DistinctIds(p) by {
          forall i, j | 0 <= i < j < |p| ensures p[i].id != p[j].id {
            assert p[i] == s[i] && p[j] == s[j];
          }
        }
        forall i | 0 <= i < |s| ensures IndexById(s)[s[i].id] == s[i] {
          if i < |p| {
            assert p[i] == s[i];
          }
        }
      }
    }
  }

  /** Filtering by parent key keeps exactly the snapshot entities filed under that key. */
  lemma {:induction false} ChildrenOfFacts(s: seq<Component>, k: int)
    ensures forall c :: c in ChildrenOf(s, k) <==> c in s && ParentKey(c.parentId) == k
    ensures DistinctIds(s) ==> DistinctIds(ChildrenOf(s, k))
  {
    if s != [] {
      var p, last := s[..|s| - 1], s[|s| - 1];
      ChildrenOfFacts(p, k);
      assert s == p + [last];
      if DistinctIds(s) {
        assert DistinctIds(p) by {
          forall i, j | 0 <= i < j < |p| ensures p[i].id != p[j].id {
            assert p[i] == s[i] && p[j] == s[j];
          }
        }
        var w := ChildrenOf(p, k);
        forall i | 0 <= i < |w| ensures w[i].id != last.id {
          assert w[i] in p;
          var j :| 0 <= j < |p| && p[j] == w[i];
          assert s[j] == w[i];
        }
      }
    }
  }

  /**
   * Every bucket built from a snapshot holds the snapshot entities with
   * that parent key in snapshot order, and exists exactly when there is
   * one, whether or not the parent itself is in the snapshot.
   */
  lemma {:induction false} GroupByParentFacts(s: seq<Component>)
    ensures forall k :: Bucket(GroupByParent(s), k) == ChildrenOf(s, k)
    ensures forall k :: k in GroupByParent(s) <==> ChildrenOf(s, k) != []
  {
    if s != [] {
      GroupByParentFacts(s[..|s| - 1]);
    }
  }

  /** A snapshot with no repeated id initialises a consistent cache. */
  lemma SnapshotInv(s: seq<Component>)
    requires DistinctIds(s)
    ensures Inv(Snapshot(s))
  {
    var st := Snapshot(s);
    IndexByIdFacts(s);
    GroupByParentFacts(s);
    assert ListingMatchesIndex(st) by {
      forall c | c in s ensures c.id in st.byId && st.byId[c.id] == c {
        var i :| 0 <= i < |s| && s[i] == c;
      }
      forall id | id in st.byId ensures st.byId[id] in s {
        var i :| 0 <= i < |s| && s[i].id == id;
      }
    }
    forall k | k in st.buckets
      ensures st.buckets[k] != [] && DistinctIds(st.buckets[k])
      ensures forall c :: c in st.buckets[k] ==>
        c.id in st.byId && st.byId[c.id] == c && ParentKey(c.parentId) == k
    {
      ChildrenOfFacts(s, k);
      assert st.buckets[k] == ChildrenOf(s, k);
      forall c | c in st.buckets[k] ensures c.id in st.byId && st.byId[c.id] == c {
        var i :| 0 <= i < |s| && s[i] == c;
      }
    }
    forall id | id in st.byId
      ensures st.byId[id] in Bucket(st.buckets, ParentKey(st.byId[id].parentId))
    {
      var i :| 0 <= i < |s| && s[i].id == id;
      ChildrenOfFacts(s, ParentKey(s[i].parentId));
    }
  }
}
