/**
 * The first-generation buffer pool, `DummyPageCacheImpl`: a map from page id to cached page,
 * in insertion order, with a pin count per cached page. A page is admitted with pin 0; when
 * the pool is at its size bound the first unpinned page is written back and removed first.
 * Releasing the last pin writes the page back and removes it at once. Its hit/miss
 * statistics are never updated.
 */
module DummyPageCaches {
  import opened StorageApi
  import opened Sequences
  import opened DiskPages
  import opened DiskStorage
  import opened CachePolicy

  /** `StatsImpl`: hit and miss counters. */
  class StatsImpl {
    var cacheHitCount: int
    var cacheMissCount: int

    constructor ()
      ensures cacheHitCount == 0 && cacheMissCount == 0
    {
      cacheHitCount := 0;
      cacheMissCount := 0;
    }
  }

  /** `CachedPageImpl`: a disk page, the cache that admitted it, and its pin count. */
  class CachedPage {
    const diskPage: DiskPage
    const cache: DummyPageCache
    var pinCount: int

    constructor (diskPage: DiskPage, cache: DummyPageCache, pinCount: int)
      ensures this.diskPage == diskPage && this.cache == cache && this.pinCount == pinCount
    {
      this.diskPage := diskPage;
      this.cache := cache;
      this.pinCount := pinCount;
    }

    /**
     * `close()`: release one pin, which must be held (a Kotlin `assert`). Releasing the last
     * pin evicts the page: it is written back and its id is removed from the cache.
     */
    method Close() returns (r: Result<()>)
      requires cache.Valid()
      modifies this, cache, cache.storage
      ensures cache.Valid()
      ensures old(pinCount) <= 0 ==> r == Err(AssertionFailed) && pinCount == old(pinCount)
      ensures old(pinCount) > 0 ==> pinCount == old(pinCount) - 1
      ensures old(pinCount) != 1 ==>
        cache.cache == old(cache.cache) && cache.order == old(cache.order)
        && cache.storage.pageMap == old(cache.storage.pageMap)
      ensures old(pinCount) > 1 ==> r == Ok(())
      ensures old(pinCount) == 1 ==> Evicted(old(cache.cache), old(cache.order), old(cache.storage.pageMap),
        diskPage, r, cache.cache, cache.order, cache.storage.pageMap)
    {
      if !(pinCount > 0) {
        return Err(AssertionFailed);
      }
      pinCount := pinCount - 1;
      if pinCount == 0 {
        r := cache.Evict(this);
      } else {
        r := Ok(());
      }
    }
  }

  /** Every cached page is filed under its own id and belongs to `owner`. */
  ghost predicate Owned(c: map<int, CachedPage>, owner: DummyPageCache) {
    forall id :: id in c ==> c[id].diskPage.id == id && c[id].cache == owner
  }

  /** The disk pages of a cache map, by id. */
  ghost function Pages(c: map<int, CachedPage>): (m: map<int, DiskPage>)
    ensures m.Keys == c.Keys && forall id :: id in c ==> m[id] == c[id].diskPage
  {
    map id | id in c :: c[id].diskPage
  }

  /** The disk pages of the entries of `c` whose ids are listed in `ids`. */
  ghost function PagesOf(c: map<int, CachedPage>, ids: seq<int>): (m: map<int, DiskPage>)
    ensures forall id :: id in m <==> id in c && id in ids
    ensures forall id :: id in m ==> m[id] == c[id].diskPage
  {
    map id | id in c && id in ids :: c[id].diskPage
  }

  /** One listed id more adds its entry's disk page, when the map holds it. */
  lemma PagesOfSnoc(c: map<int, CachedPage>, ids: seq<int>, i: int)
    requires 0 <= i < |ids|
    ensures PagesOf(c, ids[..i + 1]) == if ids[i] in c then PagesOf(c, ids[..i])[ids[i] := c[ids[i]].diskPage] else PagesOf(c, ids[..i])
  {
    var a := PagesOf(c, ids[..i + 1]);
    var b := if ids[i] in c then PagesOf(c, ids[..i])[ids[i] := c[ids[i]].diskPage] else PagesOf(c, ids[..i]);
    assert ids[..i + 1] == ids[..i] + [ids[i]];
    forall k | k in a ensures k in b && a[k] == b[k] { }
    forall k | k in b ensures k in a { }
    SameMap(a, b);
  }

  /** Listing every key gives every entry's disk page. */
  lemma PagesOfAll(c: map<int, CachedPage>, ids: seq<int>)
    requires Indexed(c, ids)
    ensures PagesOf(c, ids[..|ids|]) == Pages(c)
  {
    assert ids[..|ids|] == ids;
    SameMap(PagesOf(c, ids), Pages(c));
  }

  /** The pin count of every cached page, by id. */
  ghost function Pins(c: map<int, CachedPage>): (m: map<int, int>)
    reads c.Values
    ensures m.Keys == c.Keys && forall id :: id in c ==> m[id] == c[id].pinCount
  {
    map id | id in c :: c[id].pinCount
  }

  /** Admitting `p` with pin 0 after removing `removed` changes the pin counts the same way. */
  lemma PinsAdmitted(c0: map<int, CachedPage>, pins0: map<int, int>, removed: set<int>, id: int, p: CachedPage)
    requires pins0.Keys == c0.Keys && forall k :: k in c0 ==> pins0[k] == c0[k].pinCount
    requires p.pinCount == 0
    ensures Pins((c0 - removed)[id := p]) == (pins0 - removed)[id := 0]
  {
    SameMap(Pins((c0 - removed)[id := p]), (pins0 - removed)[id := 0]);
  }

  /** The outcome of one `addPage`, seen as one step of `load` on the pool. */
  lemma AdmissionStep(max: int, c0: map<int, CachedPage>, o0: seq<int>, p0: map<int, DiskPage>,
                      m0: map<int, DiskPage>, k: int, pageId: int, a: Result<CachedPage>,
                      c1: map<int, CachedPage>, o1: seq<int>, m1: map<int, DiskPage>, pins0: map<int, int>)
    requires Indexed(c0, o0) && pageId !in c0
    requires pins0.Keys == c0.Keys && forall id :: id in c0 ==> pins0[id] == c0[id].pinCount
    requires k == FirstFree(o0, pins0, 0)
    requires Admission(max, c0, o0, p0, m0, k, pageId, a, c1, o1, m1)
    requires a.Ok? ==> a.value.pinCount == 0
    ensures (Pool(o1, Pins(c1)), if a.Ok? then Ok(()) else Err(a.error)) == LoadStep(max, Pool(o0, pins0), pageId)
  {
    assert pageId !in o0;
    if a.Ok? {
      if |o0| == max {
        PinsAdmitted(c0, pins0, {o0[k]}, pageId, a.value);
      } else {
        PinsAdmitted(c0, pins0, {}, pageId, a.value);
        assert c0 - {} == c0 && pins0 - {} == pins0;
      }
    } else {
      SameMap(Pins(c1), pins0);
    }
  }

  /** `DummyPageCacheImpl(storage, maxCacheSize)`; a negative size means no bound. */
  class DummyPageCache {
    const storage: Storage
    const maxCacheSize: int
    const statsImpl: StatsImpl
    /** `cache`, a `LinkedHashMap`: its entries, and its keys in insertion order. */
    var cache: map<int, CachedPage>
    var order: seq<int>

    ghost predicate Valid()
      reads this, storage, statsImpl
    {
      storage.Valid() && Indexed(cache, order) && Owned(cache, this)
      && (maxCacheSize < 0 || |order| <= maxCacheSize)
      && statsImpl.cacheHitCount == 0 && statsImpl.cacheMissCount == 0
    }

    constructor (storage: Storage, maxCacheSize: int)
      requires storage.Valid()
      ensures Valid() && fresh(statsImpl)
      ensures this.storage == storage && this.maxCacheSize == maxCacheSize
      ensures cache == map[] && order == []
    {
      this.storage := storage;
      this.maxCacheSize := maxCacheSize;
      statsImpl := new StatsImpl();
      cache := map[];
      order := [];
    }

    /** Index in insertion order of the first page at or after `i` with pin 0, or `|order|`. */
    ghost function FirstUnpinnedFrom(i: int): (k: int)
      requires Valid() && 0 <= i <= |order|
      reads this, storage, statsImpl, cache.Values
      ensures i <= k <= |order|
      ensures forall j :: i <= j < k ==> cache[order[j]].pinCount != 0
      ensures k < |order| ==> cache[order[k]].pinCount == 0
      decreases |order| - i
    {
      if i == |order| then i
      else if cache[order[i]].pinCount == 0 then i
      else FirstUnpinnedFrom(i + 1)
    }

    ghost function FirstUnpinned(): (k: int)
      requires Valid()
      reads this, storage, statsImpl, cache.Values
    {
      FirstUnpinnedFrom(0)
    }

    /** The first unpinned page, read off the pin counts alone. */
    lemma FirstUnpinnedFree(i: int)
      requires Valid() && 0 <= i <= |order|
      ensures FirstUnpinnedFrom(i) == FirstFree(order, Pins(cache), i)
      decreases |order| - i
    {
      if i < |order| && cache[order[i]].pinCount != 0 {
        FirstUnpinnedFree(i + 1);
      }
    }

    /** `evictCandidate()`: the first page in insertion order with pin 0; none is an error. */
    method EvictCandidate() returns (r: Result<CachedPage>)
      requires Valid()
      ensures r.Ok? <==> FirstUnpinned() < |order|
      ensures r.Ok? ==> r.value == cache[order[FirstUnpinned()]]
      ensures r.Err? ==> r.error == IllegalState
    {
      var i := 0;
      while i < |order|
        invariant 0 <= i <= |order|
        invariant forall j :: 0 <= j < i ==> cache[order[j]].pinCount != 0
      {
        if cache[order[i]].pinCount == 0 {
          return Ok(cache[order[i]]);
        }
        i := i + 1;
      }
      r := Err(IllegalState);
    }

    /** `evict(cachedPage)`: write the page back, then drop its id from the cache. */
    method Evict(p: CachedPage) returns (r: Result<()>)
      requires Valid()
      modifies this, storage
      ensures Valid()
      ensures Evicted(old(cache), old(order), old(storage.pageMap), p.diskPage, r, cache, order, storage.pageMap)
      ensures r.Ok? && p.diskPage.id in old(cache) ==> |order| == old(|order|) - 1
    {
      var w := storage.WritePage(p.diskPage);
      if w.Err? {
        return Err(w.error);
      }
      IndexedRemove(cache, order, p.diskPage.id);
      cache := cache - {p.diskPage.id};
      order := Without(order, p.diskPage.id);
      r := Ok(());
    }

    /** The last step of `addPage`: file a new cached page with pin 0 under the page's id. */
    method Insert(page: DiskPage) returns (p: CachedPage)
      requires Valid() && page.id !in cache && (maxCacheSize < 0 || |order| < maxCacheSize)
      modifies this
      ensures Valid() && fresh(p) && p.diskPage == page && p.pinCount == 0
      ensures cache == old(cache)[page.id := p] && order == old(order) + [page.id]
    {
      p := new CachedPage(page, this, 0);
      IndexedAdd(cache, order, page.id, p);
      cache := cache[page.id := p];
      order := order + [page.id];
    }

    /** `addPage(page)`: admit a page that is not cached, with pin 0. */
    method AddPage(page: DiskPage) returns (r: Result<CachedPage>)
      requires Valid() && page.id !in cache
      modifies this, storage
      ensures Valid()
      ensures Admission(maxCacheSize, old(cache), old(order), old(Pages(cache)), old(storage.pageMap), old(FirstUnpinned()),
        page.id, r, cache, order, storage.pageMap)
      ensures r.Ok? ==> fresh(r.value) && r.value.diskPage == page && r.value.pinCount == 0
    {
      if |order| == maxCacheSize {
        var v := EvictCandidate();
        if v.Err? {
          return Err(v.error);
        }
        var w := Evict(v.value);
        if w.Err? {
          return Err(w.error);
        }
      }
      var p := Insert(page);
      r := Ok(p);
    }

    /**
     * `getAndPin(pageId)`: a cached page is pinned without touching storage; otherwise the
     * page is read from storage, admitted, and pinned.
     */
    method GetAndPin(pageId: int) returns (r: Result<CachedPage>)
      requires Valid()
      modifies this, storage, cache.Values
      ensures Valid()
      ensures r.Ok? ==> (r.value.diskPage.id == pageId && pageId in cache && cache[pageId] == r.value
        && r.value.pinCount == (if pageId in old(cache) then old(cache[pageId].pinCount) else 0) + 1)
      ensures pageId in old(cache) ==>
        (r == Ok(old(cache[pageId])) && cache == old(cache) && order == old(order)
        && storage.pageMap == old(storage.pageMap))
      ensures pageId !in old(cache) ==>
        (Admission(maxCacheSize, old(cache), old(order), old(Pages(cache)), old(storage.pageMap), old(FirstUnpinned()),
          pageId, r, cache, order, storage.pageMap)
        && (r.Ok? ==>
          (fresh(r.value)
          && (pageId in old(storage.pageMap) ==> r.value.diskPage == old(storage.pageMap[pageId]))
          && (pageId !in old(storage.pageMap) ==>
            fresh(r.value.diskPage) && r.value.diskPage.Valid() && r.value.diskPage.Records() == []))))
      ensures forall q :: q in old(cache.Values) && !(r.Ok? && q == r.value) ==> q.pinCount == old(q.pinCount)
    {
      if pageId in cache {
        var p := cache[pageId];
        p.pinCount := p.pinCount + 1;
        return Ok(p);
      }
      var page := storage.ReadPage(pageId);
      r := AddPage(page);
      if r.Ok? {
        r.value.pinCount := r.value.pinCount + 1;
      }
    }

    /** One step of `load`: admit the page storage gives for `pageId` unless it is cached. */
    method LoadOne(pageId: int) returns (r: Result<()>)
      requires Valid()
      modifies this, storage
      ensures Valid()
      ensures forall id :: id in cache && id !in old(cache) ==> fresh(cache[id]) && cache[id].pinCount == 0
      ensures forall id :: id in cache && id in old(cache) ==> cache[id] == old(cache[id])
      ensures pageId in old(cache) ==>
        (r == Ok(()) && cache == old(cache) && order == old(order) && storage.pageMap == old(storage.pageMap))
      ensures pageId !in old(cache) && maxCacheSize < 0 ==>
        (r == Ok(()) && pageId in cache && cache == old(cache)[pageId := cache[pageId]]
        && order == old(order) + [pageId] && storage.pageMap == old(storage.pageMap))
      ensures (Pool(order, Pins(cache)), r) == LoadStep(maxCacheSize, old(Pool(order, Pins(cache))), pageId)
    {
      FirstUnpinnedFree(0);
      ghost var pins := Pins(cache);
      var page := storage.ReadPage(pageId);
      if page.id in cache {
        return Ok(());
      }
      var a := AddPage(page);
      AdmissionStep(maxCacheSize, old(cache), old(order), old(Pages(cache)), old(storage.pageMap),
        old(FirstUnpinned()), pageId, a, cache, order, storage.pageMap, pins);
      r := if a.Ok? then Ok(()) else Err(a.error);
    }

    /**
     * `load(startPageId, pageCount)`: visit the pages `startPageId ..< startPageId + pageCount`
     * in order, reading each from storage as `readPageSequence` does, and admit those that
     * are not cached. An admission that throws ends the load.
     */
    method Load(startPageId: int, pageCount: int) returns (r: Result<()>)
      requires Valid()
      modifies this, storage
      ensures Valid()
      ensures forall id :: id in cache && id !in old(cache) ==> fresh(cache[id]) && cache[id].pinCount == 0
      ensures (Pool(order, Pins(cache)), r)
        == LoadSteps(maxCacheSize, old(Pool(order, Pins(cache))), Range(startPageId, pageCount))
      ensures maxCacheSize < 0 ==>
        (r == Ok(()) && order == old(order) + Missing(Range(startPageId, pageCount), old(cache).Keys)
        && (forall id :: id in old(cache) ==> id in cache && cache[id] == old(cache[id]))
        && storage.pageMap == old(storage.pageMap))
    {
      ghost var ids := Range(startPageId, pageCount);
      ghost var p0 := Pool(order, Pins(cache));
      var n := if pageCount < 0 then 0 else pageCount;
      var i := 0;
      while i < n
        invariant Valid()
        invariant 0 <= i <= n == |ids|
        invariant forall id :: id in cache && id !in old(cache) ==> fresh(cache[id]) && cache[id].pinCount == 0
        invariant LoadSteps(maxCacheSize, p0, ids[..i]) == (Pool(order, Pins(cache)), Ok(()))
        invariant maxCacheSize < 0 ==>
          (forall id :: id in old(cache) ==> id in cache && cache[id] == old(cache[id]))
          && storage.pageMap == old(storage.pageMap)
      {
        var pageId := startPageId + i;
        ghost var q0 := Pool(order, Pins(cache));
        var step := LoadOne(pageId);
        LoadStepsNext(maxCacheSize, p0, ids, i, pageId, q0, Pool(order, Pins(cache)), step);
        if step.Err? {
          return Err(step.error);
        }
        i := i + 1;
      }
      assert ids[..i] == ids;
      if maxCacheSize < 0 {
        RangeDistinct(startPageId, pageCount);
        LoadStepsUnbounded(maxCacheSize, p0, ids, old(cache).Keys);
      }
      r := Ok(());
    }

    /** The pages the cache holds, by id. */
    ghost function Image(): (m: map<int, DiskPage>)
      reads this
      ensures m == Pages(cache)
    {
      Pages(cache)
    }

    /**
     * `flush()`: write every cached page to storage, in insertion order; it stops at the
     * first page storage rejects. The cache itself does not change.
     */
    method Flush() returns (r: Result<()>)
      requires Valid()
      modifies storage
      ensures Valid()
      ensures r.Ok? <==> forall id :: id in cache ==> id >= 0
      ensures r.Ok? ==> storage.pageMap == old(storage.pageMap) + Pages(cache)
      ensures storage.pageMap == old(storage.pageMap) + PagesOf(cache, order[..FlushStop(order, cache.Keys)])
    {
      var i := 0;
      while i < |order|
        invariant storage.Valid()
        invariant 0 <= i <= |order|
        invariant forall j :: 0 <= j < i ==> order[j] >= 0
        invariant storage.pageMap == old(storage.pageMap) + PagesOf(cache, order[..i])
      {
        var id := order[i];
        var w := storage.WritePage(cache[id].diskPage);
        if w.Err? {
          FlushStopAt(order, cache.Keys, i);
          return Err(w.error);
        }
        PagesOfSnoc(cache, order, i);
        MergeUpdate(old(storage.pageMap), PagesOf(cache, order[..i]), id, cache[id].diskPage);
        i := i + 1;
      }
      FlushStopAt(order, cache.Keys, i);
      PagesOfAll(cache, order);
      r := Ok(());
    }
  }
}
