/**
 * The second-generation buffer pool, `SimplePageCacheImpl`, and its sub-caches. The main
 * cache is an insertion-ordered map from page id to cached page; a page is admitted with pin
 * 0 and, when the map holds exactly `maxCacheSize` pages, the first unpinned page is written
 * back and removed first. Releasing the last pin evicts the page through the callback it
 * was created with. A sub-cache keeps its own insertion-ordered set of page ids and its own
 * bound, but stores its pages in the main cache's map.
 */
module SimplePageCaches {
  import opened Bytes
  import opened StorageApi
  import opened Sequences
  import opened PageModel
  import opened DiskPages
  import opened DiskStorage
  import opened CachePolicy

  /** `StatsImpl`: hit and miss counters. */
  class StatsImpl {
    var cacheHitCount: int
    var cacheMissCount: int

    constructor ()
      ensures cacheHitCount == 0 && cacheMissCount == 0
    {
      cacheHitCount := 0;
      cacheMissCount := 0;
    }
  }

  /**
   * `CachedPageImpl`: a disk page, the cache that holds it, the eviction callback it was
   * created with (`sub == null` for the main cache's own `evict`, otherwise the sub-cache's),
   * its pin count and its read and write counts.
   */
  class CachedPage {
    const diskPage: DiskPage
    const main: SimplePageCache
    const sub: Subcache?
    var pinCount: int
    var readCount: nat
    var writeCount: nat

    constructor (diskPage: DiskPage, main: SimplePageCache, sub: Subcache?, pinCount: int)
      ensures this.diskPage == diskPage && this.main == main && this.sub == sub
      ensures this.pinCount == pinCount && readCount == 0 && writeCount == 0
    {
      this.diskPage := diskPage;
      this.main := main;
      this.sub := sub;
      this.pinCount := pinCount;
      readCount := 0;
      writeCount := 0;
    }

    /** `isDirty`: the page has been written through this cached page. */
    predicate IsDirty()
      reads this
    {
      writeCount > 0
    }

    /** `putRecord`: the disk page's `putRecord`, counted as a write. */
    method PutRecord(recordData: seq<byte>, recordId: int) returns (r: PutRecordResult)
      requires diskPage.Valid()
      modifies this, diskPage, diskPage.bytes
      ensures diskPage.Valid()
      ensures r == Put(old(diskPage.Records()), recordData, recordId).result
      ensures diskPage.Records() == Put(old(diskPage.Records()), recordData, recordId).slots
      ensures IsDirty() && writeCount == old(writeCount) + 1
      ensures readCount == old(readCount) && pinCount == old(pinCount)
    {
      r := diskPage.PutRecord(recordData, recordId);
      writeCount := writeCount + 1;
    }

    /** `deleteRecord`: the disk page's `deleteRecord`, counted as a write. */
    method DeleteRecord(recordId: int)
      requires diskPage.Valid()
      modifies this, diskPage.bytes
      ensures diskPage.Valid() && diskPage.Records() == Delete(old(diskPage.Records()), recordId)
      ensures IsDirty() && writeCount == old(writeCount) + 1
      ensures readCount == old(readCount) && pinCount == old(pinCount)
    {
      diskPage.DeleteRecord(recordId);
      writeCount := writeCount + 1;
    }

    /** `getRecord`: the disk page's `getRecord`, counted as a read. */
    method GetRecord(recordId: int) returns (r: GetRecordResult)
      requires diskPage.Valid()
      modifies this
      ensures r == Get(diskPage.Records(), recordId)
      ensures readCount == old(readCount) + 1
      ensures writeCount == old(writeCount) && pinCount == old(pinCount)
    {
      r := diskPage.GetRecord(recordId);
      readCount := readCount + 1;
    }

    /** `allRecords`: the disk page's `allRecords`, counted as a read. */
    method AllRecords() returns (m: map<int, GetRecordResult>)
      requires diskPage.Valid()
      modifies this
      ensures m == PageModel.AllRecords(diskPage.Records())
      ensures readCount == old(readCount) + 1
      ensures writeCount == old(writeCount) && pinCount == old(pinCount)
    {
      m := diskPage.AllRecords();
      readCount := readCount + 1;
    }

    /**
     * `close()`: release one pin if any is held. Releasing the last one calls the eviction
     * callback: the main cache writes the page back and drops it, a sub-cache only forgets
     * its id.
     */
    method Close() returns (r: Result<()>)
      requires main.Valid() && (sub != null ==> sub.Valid())
      modifies this, main, main.storage, sub
      ensures main.Valid() && (sub != null ==> sub.Valid())
      ensures pinCount == if old(pinCount) > 0 then old(pinCount) - 1 else old(pinCount)
      ensures readCount == old(readCount) && writeCount == old(writeCount)
      ensures old(pinCount) != 1 ==>
        (r == Ok(()) && main.cache == old(main.cache) && main.order == old(main.order)
        && main.storage.pageMap == old(main.storage.pageMap) && (sub != null ==> sub.pages == old(sub.pages)))
      ensures old(pinCount) == 1 && sub == null ==>
        Evicted(old(main.cache), old(main.order), old(main.storage.pageMap), diskPage,
          r, main.cache, main.order, main.storage.pageMap)
      ensures old(pinCount) == 1 && sub != null ==>
        (r == Ok(()) && sub.pages == Without(old(sub.pages), diskPage.id)
        && main.cache == old(main.cache) && main.order == old(main.order)
        && main.storage.pageMap == old(main.storage.pageMap))
    {
      r := Ok(());
      if pinCount > 0 {
        pinCount := pinCount - 1;
        if pinCount == 0 {
          if sub == null {
            r := main.Evict(this);
          } else {
            sub.Evict(this);
          }
        }
      }
    }
  }

  /** Every cached page is filed under its own id and belongs to `owner`. */
  ghost predicate Owned(c: map<int, CachedPage>, owner: SimplePageCache) {
    forall id :: id in c ==> c[id].diskPage.id == id && c[id].main == owner
  }

  /** The disk pages of a cache map, by id. */
  ghost function Pages(c: map<int, CachedPage>): (m: map<int, DiskPage>)
    ensures m.Keys == c.Keys && forall id :: id in c ==> m[id] == c[id].diskPage
  {
    map id | id in c :: c[id].diskPage
  }

  /** The disk pages of the entries of `c` whose ids are listed in `ids`. */
  ghost function PagesOf(c: map<int, CachedPage>, ids: seq<int>): (m: map<int, DiskPage>)
    ensures forall id :: id in m <==> id in c && id in ids
    ensures forall id :: id in m ==> m[id] == c[id].diskPage
  {
    map id | id in c && id in ids :: c[id].diskPage
  }

  /** One listed id more adds its entry's disk page, when the map holds it. */
  lemma PagesOfSnoc(c: map<int, CachedPage>, ids: seq<int>, i: int)
    requires 0 <= i < |ids|
    ensures PagesOf(c, ids[..i + 1]) == if ids[i] in c then PagesOf(c, ids[..i])[ids[i] := c[ids[i]].diskPage] else PagesOf(c, ids[..i])
  {
    var a := PagesOf(c, ids[..i + 1]);
    var b := if ids[i] in c then PagesOf(c, ids[..i])[ids[i] := c[ids[i]].diskPage] else PagesOf(c, ids[..i]);
    assert ids[..i + 1] == ids[..i] + [ids[i]];
    forall k | k in a ensures k in b && a[k] == b[k] { }
    forall k | k in b ensures k in a { }
    SameMap(a, b);
  }

  /** Listing every key gives every entry's disk page. */
  lemma PagesOfAll(c: map<int, CachedPage>, ids: seq<int>)
    requires Indexed(c, ids)
    ensures PagesOf(c, ids[..|ids|]) == Pages(c)
  {
    assert ids[..|ids|] == ids;
    SameMap(PagesOf(c, ids), Pages(c));
  }

  /**
   * The outcome of a sub-cache's `doAddPage` for a page with id `pageId`, on its member ids
   * `s0` and the main cache's map `c0` (key order `o0`, disk pages `p0`). Unless it has
   * exactly `max` members the page is simply put into the main map and joins the members.
   * At the bound, the victim is the main cache's entry for the first member: no member
   * throws `NoSuchElementException`, a member the main cache no longer holds throws
   * `NullPointerException`, and a write-back storage rejects throws; otherwise the victim
   * is written back and leaves both the main map and the members first.
   */
  ghost predicate SubAdmission(max: int, s0: seq<int>, c0: map<int, CachedPage>, o0: seq<int>,
                               p0: map<int, DiskPage>, m0: map<int, DiskPage>, pageId: int,
                               r: Result<CachedPage>, s1: seq<int>, c1: map<int, CachedPage>,
                               o1: seq<int>, m1: map<int, DiskPage>)
  {
    if |s0| != max then
      r.Ok? && c1 == c0[pageId := r.value] && o1 == o0 + [pageId] && m1 == m0 && s1 == Added(s0, pageId)
    else if s0 == [] then r == Err(NoSuchElement) && s1 == s0 && c1 == c0 && o1 == o0 && m1 == m0
    else if s0[0] !in c0 then r == Err(NullPointer) && s1 == s0 && c1 == c0 && o1 == o0 && m1 == m0
    else if s0[0] < 0 then r == Err(IllegalArgument) && s1 == s0 && c1 == c0 && o1 == o0 && m1 == m0
    else
      var victim := s0[0];
      r.Ok? && victim in p0 && m1 == m0[victim := p0[victim]]
      && c1 == (c0 - {victim})[pageId := r.value] && o1 == Without(o0, victim) + [pageId]
      && s1 == Added(Without(s0, victim), pageId)
  }

  /** A sub-cache admission keeps both the main key order and the member list exact. */
  lemma SubAdmissionKeepsIndex(max: int, s0: seq<int>, c0: map<int, CachedPage>, o0: seq<int>,
                               p0: map<int, DiskPage>, m0: map<int, DiskPage>, pageId: int,
                               r: Result<CachedPage>, s1: seq<int>, c1: map<int, CachedPage>,
                               o1: seq<int>, m1: map<int, DiskPage>)
    requires Indexed(c0, o0) && NoDups(s0) && pageId !in c0
    requires SubAdmission(max, s0, c0, o0, p0, m0, pageId, r, s1, c1, o1, m1)
    ensures Indexed(c1, o1) && NoDups(s1)
    ensures r.Ok? ==> pageId in c1 && pageId in s1
    ensures r.Ok? && 0 <= |s0| <= max ==> |s1| <= max
  {
    if |s0| == max && s0 != [] && s0[0] in c0 && s0[0] >= 0 {
      var victim := s0[0];
      IndexedRemove(c0, o0, victim);
      IndexedAdd(c0 - {victim}, Without(o0, victim), pageId, r.value);
      assert victim in s0;
    } else if |s0| != max {
      IndexedAdd(c0, o0, pageId, r.value);
    }
  }

  /** The pin counts of a cache map, by id. */
  ghost function Pins(c: map<int, CachedPage>): (m: map<int, int>)
    reads c.Values
    ensures m.Keys == c.Keys && forall id :: id in c ==> m[id] == c[id].pinCount
  {
    map id | id in c :: c[id].pinCount
  }

  /** Admitting `p` with pin 0 after removing `removed` changes the pin counts the same way. */
  lemma PinsAdmitted(c0: map<int, CachedPage>, pins0: map<int, int>, removed: set<int>, id: int, p: CachedPage)
    requires pins0.Keys == c0.Keys && forall k :: k in c0 ==> pins0[k] == c0[k].pinCount
    requires p.pinCount == 0
    ensures Pins((c0 - removed)[id := p]) == (pins0 - removed)[id := 0]
  {
    SameMap(Pins((c0 - removed)[id := p]), (pins0 - removed)[id := 0]);
  }

  /** The outcome of one admission, seen as one step of `load` on the pool. */
  lemma AdmissionStep(max: int, c0: map<int, CachedPage>, o0: seq<int>, p0: map<int, DiskPage>,
                      m0: map<int, DiskPage>, k: int, pageId: int, a: Result<CachedPage>,
                      c1: map<int, CachedPage>, o1: seq<int>, m1: map<int, DiskPage>, pins0: map<int, int>)
    requires Indexed(c0, o0) && pageId !in c0
    requires pins0.Keys == c0.Keys && forall id :: id in c0 ==> pins0[id] == c0[id].pinCount
    requires k == FirstFree(o0, pins0, 0)
    requires Admission(max, c0, o0, p0, m0, k, pageId, a, c1, o1, m1)
    requires a.Ok? ==> a.value.pinCount == 0
    ensures (Pool(o1, Pins(c1)), if a.Ok? then Ok(()) else Err(a.error)) == LoadStep(max, Pool(o0, pins0), pageId)
  {
    assert pageId !in o0;
    if a.Ok? {
      if |o0| == max {
        PinsAdmitted(c0, pins0, {o0[k]}, pageId, a.value);
      } else {
        PinsAdmitted(c0, pins0, {}, pageId, a.value);
        assert c0 - {} == c0 && pins0 - {} == pins0;
      }
    } else {
      SameMap(Pins(c1), pins0);
    }
  }

  /** A sub-cache as `load` sees it: the main cache's key order and the sub-cache's members. */
  datatype SubPool = SubPool(order: seq<int>, members: seq<int>)

  /**
   * One step of a sub-cache's `load` for page `id`: an id the main cache holds changes
   * nothing; otherwise the page is admitted as the sub-cache's `doAddPage` does, which at the
   * sub-cache's bound first evicts its first member, whatever its pins.
   */
  function SubLoadStep(max: int, p: SubPool, id: int): (SubPool, Result<()>)
  {
    if id in p.order then (p, Ok(()))
    else if |p.members| != max then (SubPool(p.order + [id], Added(p.members, id)), Ok(()))
    else if p.members == [] then (p, Err(NoSuchElement))
    else if p.members[0] !in p.order then (p, Err(NullPointer))
    else if p.members[0] < 0 then (p, Err(IllegalArgument))
    else
      var victim := p.members[0];
      (SubPool(Without(p.order, victim) + [id], Added(Without(p.members, victim), id)), Ok(()))
  }

  /** The outcome of one sub-cache admission, seen as one step of the sub-cache's `load`. */
  lemma SubAdmissionStep(max: int, s0: seq<int>, c0: map<int, CachedPage>, o0: seq<int>,
                         p0: map<int, DiskPage>, m0: map<int, DiskPage>, pageId: int,
                         a: Result<CachedPage>, s1: seq<int>, c1: map<int, CachedPage>,
                         o1: seq<int>, m1: map<int, DiskPage>)
    requires Indexed(c0, o0) && pageId !in c0
    requires SubAdmission(max, s0, c0, o0, p0, m0, pageId, a, s1, c1, o1, m1)
    ensures (SubPool(o1, s1), if a.Ok? then Ok(()) else Err(a.error)) == SubLoadStep(max, SubPool(o0, s0), pageId)
  {
    assert pageId !in o0;
    if |s0| == max && s0 != [] {
      assert s0[0] in c0 <==> s0[0] in o0;
    }
  }

  /** A sub-cache's `load` over `ids` in order: one step per id, until a step throws. */
  function SubLoadSteps(max: int, p: SubPool, ids: seq<int>): (SubPool, Result<()>)
    decreases |ids|
  {
    if ids == [] then (p, Ok(()))
    else
      var before := SubLoadSteps(max, p, ids[..|ids| - 1]);
      if before.1.Err? then before else SubLoadStep(max, before.0, ids[|ids| - 1])
  }

  /**
   * One id more: when the earlier ids left `q0`, the next id's step from `q0` is where the
   * load stands now, and a step that throws is where the whole load ends.
   */
  lemma SubLoadStepsNext(max: int, p: SubPool, ids: seq<int>, i: int, id: int, q0: SubPool, q: SubPool, r: Result<()>)
    requires 0 <= i < |ids| && ids[i] == id
    requires SubLoadSteps(max, p, ids[..i]) == (q0, Ok(()))
    requires (q, r) == SubLoadStep(max, q0, id)
    ensures r.Ok? ==> SubLoadSteps(max, p, ids[..i + 1]) == (q, Ok(()))
    ensures r.Err? ==> SubLoadSteps(max, p, ids) == (q, r)
  {
    assert ids[..i + 1][..i] == ids[..i];
    if r.Err? {
      SubLoadStepsStopped(max, p, ids, i + 1);
    }
  }

  /** Once a step has thrown, the load is over: the later ids change nothing. */
  lemma {:induction false} SubLoadStepsStopped(max: int, p: SubPool, ids: seq<int>, j: int)
    requires 0 <= j <= |ids| && SubLoadSteps(max, p, ids[..j]).1.Err?
    ensures SubLoadSteps(max, p, ids) == SubLoadSteps(max, p, ids[..j])
    decreases |ids| - j
  {
    if j == |ids| {
      assert ids[..j] == ids;
    } else {
      var front := ids[..|ids| - 1];
      assert front[..j] == ids[..j];
      SubLoadStepsStopped(max, p, front, j);
    }
  }

  /**
   * Without a bound nothing throws: the main cache's keys gain exactly the ids it did not
   * hold, in the order they were visited, and each of them joins the members.
   */
  lemma {:induction false} SubLoadStepsUnbounded(max: int, p: SubPool, ids: seq<int>, keys: set<int>)
    requires max < 0 && NoDups(ids)
    requires forall x :: x in keys <==> x in p.order
    ensures SubLoadSteps(max, p, ids).1 == Ok(())
    ensures SubLoadSteps(max, p, ids).0.order == p.order + Missing(ids, keys)
    ensures forall x :: x in SubLoadSteps(max, p, ids).0.members <==> x in p.members || x in Missing(ids, keys)
    decreases |ids|
  {
    if ids != [] {
      var front := ids[..|ids| - 1];
      var last := ids[|ids| - 1];
      assert ids == front + [last];
      assert NoDups(front) && last !in front;
      SubLoadStepsUnbounded(max, p, front, keys);
      MissingMembers(front, keys);
    }
  }

  /**
   * One step keeps the main keys and the members distinct, keeps the members within a
   * non-negative bound, and only brings in its own id.
   */
  lemma SubLoadStepBound(max: int, p: SubPool, id: int)
    requires NoDups(p.order) && NoDups(p.members)
    ensures NoDups(SubLoadStep(max, p, id).0.order) && NoDups(SubLoadStep(max, p, id).0.members)
    ensures 0 <= |p.members| <= max ==> |SubLoadStep(max, p, id).0.members| <= max
    ensures forall x :: x in SubLoadStep(max, p, id).0.order ==> x in p.order || x == id
    ensures forall x :: x in SubLoadStep(max, p, id).0.members ==> x in p.members || x == id
  {
    if id !in p.order && |p.members| != max {
      IndexedAdd(map x | x in p.order :: 0, p.order, id, 0);
    } else if id !in p.order && p.members != [] && p.members[0] in p.order && p.members[0] >= 0 {
      var o := Without(p.order, p.members[0]);
      IndexedAdd(map x | x in o :: 0, o, id, 0);
      assert p.members[0] in p.members;
    }
  }

  /**
   * A sub-cache's `load` keeps the main keys and the members distinct and the members within
   * a non-negative bound; afterwards every key and every member was there before or is one of
   * the ids.
   */
  lemma {:induction false} SubLoadStepsBound(max: int, p: SubPool, ids: seq<int>)
    requires NoDups(p.order) && NoDups(p.members)
    ensures NoDups(SubLoadSteps(max, p, ids).0.order) && NoDups(SubLoadSteps(max, p, ids).0.members)
    ensures 0 <= |p.members| <= max ==> |SubLoadSteps(max, p, ids).0.members| <= max
    ensures forall x :: x in SubLoadSteps(max, p, ids).0.order ==> x in p.order || x in ids
    ensures forall x :: x in SubLoadSteps(max, p, ids).0.members ==> x in p.members || x in ids
    decreases |ids|
  {
    if ids != [] {
      var front := ids[..|ids| - 1];
      var last := ids[|ids| - 1];
      SubLoadStepsBound(max, p, front);
      SubLoadStepBound(max, SubLoadSteps(max, p, front).0, last);
      assert forall x :: x in front || x == last ==> x in ids;
    }
  }

  /** `SimplePageCacheImpl(storage, maxCacheSize)`; a negative size means no bound. */
  class SimplePageCache {
    const storage: Storage
    const maxCacheSize: int
    const statsImpl: StatsImpl
    /** `cache`, a `LinkedHashMap`: its entries, and its keys in insertion order. */
    var cache: map<int, CachedPage>
    var order: seq<int>

    ghost predicate Valid()
      reads this, storage
    {
      storage.Valid() && Indexed(cache, order) && Owned(cache, this)
    }

    constructor (storage: Storage, maxCacheSize: int)
      requires storage.Valid()
      ensures Valid() && fresh(statsImpl) && statsImpl.cacheHitCount == 0 && statsImpl.cacheMissCount == 0
      ensures this.storage == storage && this.maxCacheSize == maxCacheSize
      ensures cache == map[] && order == []
    {
      this.storage := storage;
      this.maxCacheSize := maxCacheSize;
      statsImpl := new StatsImpl();
      cache := map[];
      order := [];
    }

    /** Index in insertion order of the first page at or after `i` with pin 0, or `|order|`. */
    ghost function FirstUnpinnedFrom(i: int): (k: int)
      requires Valid() && 0 <= i <= |order|
      reads this, storage, cache.Values
      ensures i <= k <= |order|
      ensures forall j :: i <= j < k ==> cache[order[j]].pinCount != 0
      ensures k < |order| ==> cache[order[k]].pinCount == 0
      decreases |order| - i
    {
      if i == |order| then i
      else if cache[order[i]].pinCount == 0 then i
      else FirstUnpinnedFrom(i + 1)
    }

    ghost function FirstUnpinned(): (k: int)
      requires Valid()
      reads this, storage, cache.Values
    {
      FirstUnpinnedFrom(0)
    }

    /** The first unpinned page is the pool's first free id. */
    lemma FirstUnpinnedFree(i: int)
      requires Valid() && 0 <= i <= |order|
      ensures FirstUnpinnedFrom(i) == FirstFree(order, Pins(cache), i)
      decreases |order| - i
    {
      if i < |order| && cache[order[i]].pinCount != 0 {
        FirstUnpinnedFree(i + 1);
      }
    }

    /** `evictCandidate()`: the first page in insertion order with pin 0; none is an error. */
    method EvictCandidate() returns (r: Result<CachedPage>)
      requires Valid()
      ensures r.Ok? <==> FirstUnpinned() < |order|
      ensures r.Ok? ==> r.value == cache[order[FirstUnpinned()]]
      ensures r.Err? ==> r.error == IllegalState
    {
      var i := 0;
      while i < |order|
        invariant 0 <= i <= |order|
        invariant forall j :: 0 <= j < i ==> cache[order[j]].pinCount != 0
      {
        if cache[order[i]].pinCount == 0 {
          return Ok(cache[order[i]]);
        }
        i := i + 1;
      }
      r := Err(IllegalState);
    }

    /** `evict(cachedPage)`: write the page back, then drop its id from the cache. */
    method Evict(p: CachedPage) returns (r: Result<()>)
      requires Valid()
      modifies this, storage
      ensures Valid()
      ensures Evicted(old(cache), old(order), old(storage.pageMap), p.diskPage, r, cache, order, storage.pageMap)
    {
      var w := storage.WritePage(p.diskPage);
      if w.Err? {
        return Err(w.error);
      }
      IndexedRemove(cache, order, p.diskPage.id);
      cache := cache - {p.diskPage.id};
      order := Without(order, p.diskPage.id);
      r := Ok(());
    }

    /**
     * The last step of either `doAddPage`: file a new cached page with pin 0 under the
     * page's id, with the eviction callback of `sub` (the main cache's own when null).
     */
    method Insert(page: DiskPage, sub: Subcache?) returns (p: CachedPage)
      requires Valid() && page.id !in cache
      modifies this
      ensures Valid() && fresh(p) && p.diskPage == page && p.main == this && p.sub == sub
      ensures p.pinCount == 0 && p.readCount == 0 && p.writeCount == 0
      ensures cache == old(cache)[page.id := p] && order == old(order) + [page.id]
    {
      p := new CachedPage(page, this, sub, 0);
      IndexedAdd(cache, order, page.id, p);
      cache := cache[page.id := p];
      order := order + [page.id];
    }

    /** `doAddPage(page)`: admit a page that is not cached, with pin 0. */
    method AddPage(page: DiskPage) returns (r: Result<CachedPage>)
      requires Valid() && page.id !in cache
      modifies this, storage
      ensures Valid()
      ensures Admission(maxCacheSize, old(cache), old(order), old(Pages(cache)), old(storage.pageMap),
        old(FirstUnpinned()), page.id, r, cache, order, storage.pageMap)
      ensures r.Ok? ==> (fresh(r.value) && r.value.diskPage == page && r.value.sub == null
        && r.value.pinCount == 0 && r.value.readCount == 0 && r.value.writeCount == 0)
    {
      if |order| == maxCacheSize {
        var v := EvictCandidate();
        if v.Err? {
          return Err(v.error);
        }
        var w := Evict(v.value);
        if w.Err? {
          return Err(w.error);
        }
      }
      var p := Insert(page, null);
      r := Ok(p);
    }

    /** The `addPage` argument of `doLoad` and `doGetAndPin`: this cache's or `via`'s `doAddPage`. */
    method Admit(page: DiskPage, via: Subcache?) returns (r: Result<CachedPage>)
      requires Valid() && page.id !in cache && (via != null ==> via.main == this && via.Valid())
      modifies this, storage, via
      ensures Valid() && (via != null ==> via.Valid())
      ensures via == null ==>
        Admission(maxCacheSize, old(cache), old(order), old(Pages(cache)), old(storage.pageMap),
          old(FirstUnpinned()), page.id, r, cache, order, storage.pageMap)
      ensures via != null ==>
        SubAdmission(via.maxCacheSize, old(via.pages), old(cache), old(order), old(Pages(cache)),
          old(storage.pageMap), page.id, r, via.pages, cache, order, storage.pageMap)
      ensures r.Ok? ==> (fresh(r.value) && r.value.diskPage == page && r.value.sub == via
        && r.value.pinCount == 0 && r.value.readCount == 0 && r.value.writeCount == 0)
    {
      if via == null {
        r := AddPage(page);
      } else {
        r := via.AddPage(page);
      }
    }

    /**
     * `doGetAndPin(pageId, recordCacheHit, addPage, pinIncrement)`: a cached page is used as
     * it is, otherwise the page storage gives is admitted; the page's pin count then grows by
     * `pinIncrement` and the hit or miss is counted. An admission that throws counts nothing.
     */
    method DoGetAndPin(pageId: int, pinIncrement: int, via: Subcache?) returns (r: Result<CachedPage>)
      requires Valid() && (via != null ==> via.main == this && via.Valid())
      modifies this, storage, cache.Values, statsImpl, via
      ensures Valid() && (via != null ==> via.Valid())
      ensures r.Ok? ==> (r.value.diskPage.id == pageId && pageId in cache && cache[pageId] == r.value
        && r.value.pinCount == (if pageId in old(cache) then old(cache[pageId].pinCount) else 0) + pinIncrement)
      ensures pageId in old(cache) ==>
        (r == Ok(old(cache[pageId])) && cache == old(cache) && order == old(order)
        && storage.pageMap == old(storage.pageMap) && (via != null ==> via.pages == old(via.pages))
        && statsImpl.cacheHitCount == old(statsImpl.cacheHitCount) + 1
        && statsImpl.cacheMissCount == old(statsImpl.cacheMissCount))
      ensures pageId !in old(cache) && via == null ==>
        Admission(maxCacheSize, old(cache), old(order), old(Pages(cache)), old(storage.pageMap),
          old(FirstUnpinned()), pageId, r, cache, order, storage.pageMap)
      ensures pageId !in old(cache) && via != null ==>
        SubAdmission(via.maxCacheSize, old(via.pages), old(cache), old(order), old(Pages(cache)),
          old(storage.pageMap), pageId, r, via.pages, cache, order, storage.pageMap)
      ensures pageId !in old(cache) ==>
        (statsImpl.cacheHitCount == old(statsImpl.cacheHitCount)
        && statsImpl.cacheMissCount == old(statsImpl.cacheMissCount) + (if r.Ok? then 1 else 0))
      ensures pageId !in old(cache) && r.Ok? ==>
        (fresh(r.value) && r.value.sub == via
        && (pageId in old(storage.pageMap) ==> r.value.diskPage == old(storage.pageMap[pageId]))
        && (pageId !in old(storage.pageMap) ==>
          fresh(r.value.diskPage) && r.value.diskPage.Valid() && r.value.diskPage.Records() == []))
      ensures forall q :: q in old(cache.Values) && !(r.Ok? && q == r.value) ==> q.pinCount == old(q.pinCount)
    {
      if pageId in cache {
        var p := cache[pageId];
        p.pinCount := p.pinCount + pinIncrement;
        statsImpl.cacheHitCount := statsImpl.cacheHitCount + 1;
        return Ok(p);
      }
      if via == null {
        r := Miss(pageId, pinIncrement);
      } else {
        r := SubMiss(pageId, pinIncrement, via);
      }
    }

    /** The miss branch of `doGetAndPin` with this cache's `doAddPage`: read, admit, pin, count. */
    method Miss(pageId: int, pinIncrement: int) returns (r: Result<CachedPage>)
      requires Valid() && pageId !in cache
      modifies this, storage, statsImpl
      ensures Valid()
      ensures r.Ok? ==> (r.value.diskPage.id == pageId && pageId in cache && cache[pageId] == r.value
        && r.value.pinCount == pinIncrement && fresh(r.value) && r.value.sub == null
        && (pageId in old(storage.pageMap) ==> r.value.diskPage == old(storage.pageMap[pageId]))
        && (pageId !in old(storage.pageMap) ==>
          fresh(r.value.diskPage) && r.value.diskPage.Valid() && r.value.diskPage.Records() == []))
      ensures Admission(maxCacheSize, old(cache), old(order), old(Pages(cache)), old(storage.pageMap),
        old(FirstUnpinned()), pageId, r, cache, order, storage.pageMap)
      ensures statsImpl.cacheHitCount == old(statsImpl.cacheHitCount)
      ensures statsImpl.cacheMissCount == old(statsImpl.cacheMissCount) + (if r.Ok? then 1 else 0)
    {
      ghost var k := FirstUnpinned();
      var page := storage.ReadPage(pageId);
      assert FirstUnpinned() == k;
      r := AddPage(page);
      if r.Ok? {
        r.value.pinCount := r.value.pinCount + pinIncrement;
        statsImpl.cacheMissCount := statsImpl.cacheMissCount + 1;
      }
    }

    /** The miss branch of `doGetAndPin` with the `doAddPage` of sub-cache `via`. */
    method SubMiss(pageId: int, pinIncrement: int, via: Subcache) returns (r: Result<CachedPage>)
      requires Valid() && pageId !in cache && via.main == this && via.Valid()
      modifies this, storage, statsImpl, via
      ensures Valid() && via.Valid()
      ensures r.Ok? ==> (r.value.diskPage.id == pageId && pageId in cache && cache[pageId] == r.value
        && r.value.pinCount == pinIncrement && fresh(r.value) && r.value.sub == via
        && (pageId in old(storage.pageMap) ==> r.value.diskPage == old(storage.pageMap[pageId]))
        && (pageId !in old(storage.pageMap) ==>
          fresh(r.value.diskPage) && r.value.diskPage.Valid() && r.value.diskPage.Records() == []))
      ensures SubAdmission(via.maxCacheSize, old(via.pages), old(cache), old(order), old(Pages(cache)),
        old(storage.pageMap), pageId, r, via.pages, cache, order, storage.pageMap)
      ensures statsImpl.cacheHitCount == old(statsImpl.cacheHitCount)
      ensures statsImpl.cacheMissCount == old(statsImpl.cacheMissCount) + (if r.Ok? then 1 else 0)
    {
      var page := storage.ReadPage(pageId);
      r := via.AddPage(page);
      if r.Ok? {
        r.value.pinCount := r.value.pinCount + pinIncrement;
        statsImpl.cacheMissCount := statsImpl.cacheMissCount + 1;
      }
    }

    /** `get(pageId)`: `doGetAndPin` with this cache's `doAddPage` and no new pin. */
    method Get(pageId: int) returns (r: Result<CachedPage>)
      requires Valid()
      modifies this, storage, cache.Values, statsImpl
      ensures Valid()
      ensures r.Ok? ==> (r.value.diskPage.id == pageId && pageId in cache && cache[pageId] == r.value
        && r.value.pinCount == if pageId in old(cache) then old(cache[pageId].pinCount) else 0)
      ensures pageId in old(cache) ==>
        (r == Ok(old(cache[pageId])) && cache == old(cache) && order == old(order)
        && storage.pageMap == old(storage.pageMap)
        && statsImpl.cacheHitCount == old(statsImpl.cacheHitCount) + 1
        && statsImpl.cacheMissCount == old(statsImpl.cacheMissCount))
      ensures pageId !in old(cache) ==>
        Admission(maxCacheSize, old(cache), old(order), old(Pages(cache)), old(storage.pageMap),
          old(FirstUnpinned()), pageId, r, cache, order, storage.pageMap)
      ensures pageId !in old(cache) ==>
        (statsImpl.cacheHitCount == old(statsImpl.cacheHitCount)
        && statsImpl.cacheMissCount == old(statsImpl.cacheMissCount) + (if r.Ok? then 1 else 0))
      ensures forall q :: q in old(cache.Values) && !(r.Ok? && q == r.value) ==> q.pinCount == old(q.pinCount)
    {
      r := DoGetAndPin(pageId, 0, null);
    }

    /** `getAndPin(pageId)`: `doGetAndPin` with this cache's `doAddPage` and one new pin. */
    method GetAndPin(pageId: int) returns (r: Result<CachedPage>)
      requires Valid()
      modifies this, storage, cache.Values, statsImpl
      ensures Valid()
      ensures r.Ok? ==> (r.value.diskPage.id == pageId && pageId in cache && cache[pageId] == r.value
        && r.value.pinCount == (if pageId in old(cache) then old(cache[pageId].pinCount) else 0) + 1)
      ensures pageId in old(cache) ==>
        (r == Ok(old(cache[pageId])) && cache == old(cache) && order == old(order)
        && storage.pageMap == old(storage.pageMap)
        && statsImpl.cacheHitCount == old(statsImpl.cacheHitCount) + 1
        && statsImpl.cacheMissCount == old(statsImpl.cacheMissCount))
      ensures pageId !in old(cache) ==>
        Admission(maxCacheSize, old(cache), old(order), old(Pages(cache)), old(storage.pageMap),
          old(FirstUnpinned()), pageId, r, cache, order, storage.pageMap)
      ensures pageId !in old(cache) ==>
        (statsImpl.cacheHitCount == old(statsImpl.cacheHitCount)
        && statsImpl.cacheMissCount == old(statsImpl.cacheMissCount) + (if r.Ok? then 1 else 0))
      ensures forall q :: q in old(cache.Values) && !(r.Ok? && q == r.value) ==> q.pinCount == old(q.pinCount)
    {
      r := DoGetAndPin(pageId, 1, null);
    }

    /** One step of `doLoad`: admit the page storage gives for `pageId` unless it is cached. */
    method LoadOne(pageId: int, via: Subcache?) returns (r: Result<()>)
      requires Valid() && (via != null ==> via.main == this && via.Valid())
      modifies this, storage, via
      ensures Valid() && (via != null ==> via.Valid())
      ensures forall id :: id in cache && id !in old(cache) ==> fresh(cache[id]) && cache[id].pinCount == 0
      ensures forall id :: id in cache && id in old(cache) ==> cache[id] == old(cache[id])
      ensures via == null && maxCacheSize < 0 ==>
        r == Ok(()) && old(cache).Keys <= cache.Keys && storage.pageMap == old(storage.pageMap)
      ensures via == null ==>
        (Pool(order, Pins(cache)), r) == LoadStep(maxCacheSize, old(Pool(order, Pins(cache))), pageId)
      ensures via != null ==>
        (SubPool(order, via.pages), r) == SubLoadStep(via.maxCacheSize, old(SubPool(order, via.pages)), pageId)
    {
      FirstUnpinnedFree(0);
      ghost var pins := Pins(cache);
      var page := storage.ReadPage(pageId);
      if page.id in cache {
        return Ok(());
      }
      var a := Admit(page, via);
      if via == null {
        AdmissionStep(maxCacheSize, old(cache), old(order), old(Pages(cache)), old(storage.pageMap),
          old(FirstUnpinned()), pageId, a, cache, order, storage.pageMap, pins);
      } else {
        SubAdmissionStep(via.maxCacheSize, old(via.pages), old(cache), old(order), old(Pages(cache)),
          old(storage.pageMap), pageId, a, via.pages, cache, order, storage.pageMap);
      }
      r := if a.Ok? then Ok(()) else Err(a.error);
    }

    /**
     * `doLoad(startPageId, pageCount, addPage)`: visit the pages `startPageId ..<
     * startPageId + pageCount` in order, reading each from storage as `readPageSequence`
     * does, and admit those that are not cached. An admission that throws ends the load.
     */
    method DoLoad(startPageId: int, pageCount: int, via: Subcache?) returns (r: Result<()>)
      requires Valid() && (via != null ==> via.main == this && via.Valid())
      modifies this, storage, via
      ensures Valid() && (via != null ==> via.Valid())
      ensures forall id :: id in cache && id !in old(cache) ==> fresh(cache[id]) && cache[id].pinCount == 0
      ensures via == null ==>
        (Pool(order, Pins(cache)), r)
        == LoadSteps(maxCacheSize, old(Pool(order, Pins(cache))), Range(startPageId, pageCount))
      ensures via != null ==>
        (SubPool(order, via.pages), r)
        == SubLoadSteps(via.maxCacheSize, old(SubPool(order, via.pages)), Range(startPageId, pageCount))
      ensures via == null && maxCacheSize < 0 ==>
        (r == Ok(()) && order == old(order) + Missing(Range(startPageId, pageCount), old(cache).Keys)
        && (forall id :: id in old(cache) ==> id in cache && cache[id] == old(cache[id]))
        && storage.pageMap == old(storage.pageMap))
    {
      ghost var ids := Range(startPageId, pageCount);
      ghost var p0 := Pool(order, Pins(cache));
      ghost var s0 := SubPool(order, if via != null then via.pages else []);
      var n := if pageCount < 0 then 0 else pageCount;
      var i := 0;
      while i < n
        invariant Valid() && (via != null ==> via.Valid())
        invariant 0 <= i <= n == |ids|
        invariant forall id :: id in cache && id !in old(cache) ==> fresh(cache[id]) && cache[id].pinCount == 0
        invariant via == null ==> LoadSteps(maxCacheSize, p0, ids[..i]) == (Pool(order, Pins(cache)), Ok(()))
        invariant via != null ==> SubLoadSteps(via.maxCacheSize, s0, ids[..i]) == (SubPool(order, via.pages), Ok(()))
        invariant via == null && maxCacheSize < 0 ==>
          (forall id :: id in old(cache) ==> id in cache && cache[id] == old(cache[id]))
          && storage.pageMap == old(storage.pageMap)
      {
        var pageId := startPageId + i;
        var step;
        if via == null {
          ghost var q0 := Pool(order, Pins(cache));
          step := LoadOne(pageId, via);
          LoadStepsNext(maxCacheSize, p0, ids, i, pageId, q0, Pool(order, Pins(cache)), step);
        } else {
          ghost var t0 := SubPool(order, via.pages);
          step := LoadOne(pageId, via);
          SubLoadStepsNext(via.maxCacheSize, s0, ids, i, pageId, t0, SubPool(order, via.pages), step);
        }
        if step.Err? {
          return Err(step.error);
        }
        i := i + 1;
      }
      assert ids[..i] == ids;
      if via == null && maxCacheSize < 0 {
        RangeDistinct(startPageId, pageCount);
        LoadStepsUnbounded(maxCacheSize, p0, ids, old(cache).Keys);
      }
      r := Ok(());
    }

    /** `load(startPageId, pageCount)`: `doLoad` with this cache's `doAddPage`. */
    method Load(startPageId: int, pageCount: int) returns (r: Result<()>)
      requires Valid()
      modifies this, storage
      ensures Valid()
      ensures forall id :: id in cache && id !in old(cache) ==> fresh(cache[id]) && cache[id].pinCount == 0
      ensures (Pool(order, Pins(cache)), r)
        == LoadSteps(maxCacheSize, old(Pool(order, Pins(cache))), Range(startPageId, pageCount))
      ensures unchanged(statsImpl)
      ensures maxCacheSize < 0 ==>
        (r == Ok(()) && order == old(order) + Missing(Range(startPageId, pageCount), old(cache).Keys)
        && (forall id :: id in old(cache) ==> id in cache && cache[id] == old(cache[id]))
        && storage.pageMap == old(storage.pageMap))
    {
      r := DoLoad(startPageId, pageCount, null);
    }

    /**
     * `flush()`: write every cached page to storage, in insertion order; it stops at the
     * first page storage rejects. The cache itself does not change.
     */
    method Flush() returns (r: Result<()>)
      requires Valid()
      modifies storage
      ensures Valid()
      ensures r.Ok? <==> forall id :: id in cache ==> id >= 0
      ensures r.Ok? ==> storage.pageMap == old(storage.pageMap) + Pages(cache)
      ensures storage.pageMap == old(storage.pageMap) + PagesOf(cache, order[..FlushStop(order, cache.Keys)])
    {
      var i := 0;
      while i < |order|
        invariant storage.Valid()
        invariant 0 <= i <= |order|
        invariant forall j :: 0 <= j < i ==> order[j] >= 0
        invariant storage.pageMap == old(storage.pageMap) + PagesOf(cache, order[..i])
      {
        var id := order[i];
        var w := storage.WritePage(cache[id].diskPage);
        if w.Err? {
          FlushStopAt(order, cache.Keys, i);
          return Err(w.error);
        }
        PagesOfSnoc(cache, order, i);
        MergeUpdate(old(storage.pageMap), PagesOf(cache, order[..i]), id, cache[id].diskPage);
        i := i + 1;
      }
      FlushStopAt(order, cache.Keys, i);
      PagesOfAll(cache, order);
      r := Ok(());
    }

    /** `createSubCache(size)`: a sub-cache over this one with its own bound and statistics. */
    method CreateSubCache(size: int) returns (s: Subcache)
      ensures fresh(s) && fresh(s.statsImpl) && s.Valid()
      ensures s.main == this && s.maxCacheSize == size && s.pages == []
      ensures s.statsImpl.cacheHitCount == 0 && s.statsImpl.cacheMissCount == 0
    {
      s := new Subcache(this, size);
    }
  }

  /** `SubcacheImpl(mainCache, maxCacheSize)`. */
  class Subcache {
    const main: SimplePageCache
    const maxCacheSize: int
    const statsImpl: StatsImpl
    /** `subcachePages`, a `LinkedHashSet`: its ids in insertion order. */
    var pages: seq<int>

    ghost predicate Valid()
      reads this
    {
      NoDups(pages) && statsImpl != main.statsImpl
    }

    constructor (main: SimplePageCache, maxCacheSize: int)
      ensures Valid() && fresh(statsImpl) && statsImpl.cacheHitCount == 0 && statsImpl.cacheMissCount == 0
      ensures this.main == main && this.maxCacheSize == maxCacheSize && pages == []
    {
      this.main := main;
      this.maxCacheSize := maxCacheSize;
      statsImpl := new StatsImpl();
      pages := [];
    }

    /** `evictCandidate()`: the main cache's entry for the first member. */
    method EvictCandidate() returns (r: Result<CachedPage>)
      requires main.Valid()
      ensures pages == [] ==> r == Err(NoSuchElement)
      ensures pages != [] && pages[0] !in main.cache ==> r == Err(NullPointer)
      ensures pages != [] && pages[0] in main.cache ==> r == Ok(main.cache[pages[0]])
    {
      if pages == [] {
        return Err(NoSuchElement);
      }
      if pages[0] !in main.cache {
        return Err(NullPointer);
      }
      r := Ok(main.cache[pages[0]]);
    }

    /** `evict(cachedPage)`: the page stops being a member; the main cache keeps it. */
    method Evict(p: CachedPage)
      requires Valid()
      modifies this
      ensures Valid() && pages == Without(old(pages), p.diskPage.id)
    {
      pages := Without(pages, p.diskPage.id);
    }

    /** `doAddPage(page)`: admit a page the main cache does not hold, as a member. */
    method AddPage(page: DiskPage) returns (r: Result<CachedPage>)
      requires Valid() && main.Valid() && page.id !in main.cache
      modifies this, main, main.storage
      ensures Valid() && main.Valid()
      ensures SubAdmission(maxCacheSize, old(pages), old(main.cache), old(main.order), old(Pages(main.cache)),
        old(main.storage.pageMap), page.id, r, pages, main.cache, main.order, main.storage.pageMap)
      ensures r.Ok? ==> (fresh(r.value) && r.value.diskPage == page && r.value.sub == this
        && r.value.pinCount == 0 && r.value.readCount == 0 && r.value.writeCount == 0)
    {
      if |pages| == maxCacheSize {
        var v := EvictCandidate();
        if v.Err? {
          return Err(v.error);
        }
        var w := main.Evict(v.value);
        if w.Err? {
          return Err(w.error);
        }
        pages := Without(pages, v.value.diskPage.id);
      }
      var p := main.Insert(page, this);
      pages := Added(pages, page.id);
      r := Ok(p);
    }

    /**
     * `doGetAndPin(pageId, pinIncrement)`: count a hit or a miss by membership, then use the
     * main cache's `doGetAndPin` with this sub-cache's `doAddPage`.
     */
    method DoGetAndPin(pageId: int, pinIncrement: int) returns (r: Result<CachedPage>)
      requires Valid() && main.Valid()
      modifies this, statsImpl, main, main.storage, main.cache.Values, main.statsImpl
      ensures Valid() && main.Valid()
      ensures statsImpl.cacheHitCount == old(statsImpl.cacheHitCount) + (if pageId in old(pages) then 1 else 0)
      ensures statsImpl.cacheMissCount == old(statsImpl.cacheMissCount) + (if pageId in old(pages) then 0 else 1)
      ensures r.Ok? ==> (r.value.diskPage.id == pageId && pageId in main.cache && main.cache[pageId] == r.value
        && r.value.pinCount == (if pageId in old(main.cache) then old(main.cache[pageId].pinCount) else 0) + pinIncrement)
      ensures pageId in old(main.cache) ==>
        (r == Ok(old(main.cache[pageId])) && main.cache == old(main.cache) && main.order == old(main.order)
        && main.storage.pageMap == old(main.storage.pageMap) && pages == old(pages))
      ensures pageId !in old(main.cache) ==>
        SubAdmission(maxCacheSize, old(pages), old(main.cache), old(main.order), old(Pages(main.cache)),
          old(main.storage.pageMap), pageId, r, pages, main.cache, main.order, main.storage.pageMap)
      ensures main.statsImpl.cacheHitCount == old(main.statsImpl.cacheHitCount) + (if pageId in old(main.cache) then 1 else 0)
      ensures main.statsImpl.cacheMissCount
        == old(main.statsImpl.cacheMissCount) + (if pageId !in old(main.cache) && r.Ok? then 1 else 0)
      ensures forall q :: q in old(main.cache.Values) && !(r.Ok? && q == r.value) ==> q.pinCount == old(q.pinCount)
    {
      if pageId in pages {
        statsImpl.cacheHitCount := statsImpl.cacheHitCount + 1;
      } else {
        statsImpl.cacheMissCount := statsImpl.cacheMissCount + 1;
      }
      r := main.DoGetAndPin(pageId, pinIncrement, this);
    }

    /** `get(pageId)`: `doGetAndPin` with no new pin. */
    method Get(pageId: int) returns (r: Result<CachedPage>)
      requires Valid() && main.Valid()
      modifies this, statsImpl, main, main.storage, main.cache.Values, main.statsImpl
      ensures Valid() && main.Valid()
      ensures statsImpl.cacheHitCount == old(statsImpl.cacheHitCount) + (if pageId in old(pages) then 1 else 0)
      ensures statsImpl.cacheMissCount == old(statsImpl.cacheMissCount) + (if pageId in old(pages) then 0 else 1)
      ensures r.Ok? ==> (r.value.diskPage.id == pageId && pageId in main.cache && main.cache[pageId] == r.value
        && r.value.pinCount == if pageId in old(main.cache) then old(main.cache[pageId].pinCount) else 0)
      ensures pageId !in old(main.cache) ==>
        SubAdmission(maxCacheSize, old(pages), old(main.cache), old(main.order), old(Pages(main.cache)),
          old(main.storage.pageMap), pageId, r, pages, main.cache, main.order, main.storage.pageMap)
      ensures pageId in old(main.cache) ==>
        (r == Ok(old(main.cache[pageId])) && main.cache == old(main.cache) && main.order == old(main.order)
        && main.storage.pageMap == old(main.storage.pageMap) && pages == old(pages))
      ensures main.statsImpl.cacheHitCount == old(main.statsImpl.cacheHitCount) + (if pageId in old(main.cache) then 1 else 0)
      ensures main.statsImpl.cacheMissCount
        == old(main.statsImpl.cacheMissCount) + (if pageId !in old(main.cache) && r.Ok? then 1 else 0)
      ensures forall q :: q in old(main.cache.Values) && !(r.Ok? && q == r.value) ==> q.pinCount == old(q.pinCount)
    {
      r := DoGetAndPin(pageId, 0);
    }

    /** `getAndPin(pageId)`: `doGetAndPin` with one new pin. */
    method GetAndPin(pageId: int) returns (r: Result<CachedPage>)
      requires Valid() && main.Valid()
      modifies this, statsImpl, main, main.storage, main.cache.Values, main.statsImpl
      ensures Valid() && main.Valid()
      ensures statsImpl.cacheHitCount == old(statsImpl.cacheHitCount) + (if pageId in old(pages) then 1 else 0)
      ensures statsImpl.cacheMissCount == old(statsImpl.cacheMissCount) + (if pageId in old(pages) then 0 else 1)
      ensures r.Ok? ==> (r.value.diskPage.id == pageId && pageId in main.cache && main.cache[pageId] == r.value
        && r.value.pinCount == (if pageId in old(main.cache) then old(main.cache[pageId].pinCount) else 0) + 1)
      ensures pageId !in old(main.cache) ==>
        SubAdmission(maxCacheSize, old(pages), old(main.cache), old(main.order), old(Pages(main.cache)),
          old(main.storage.pageMap), pageId, r, pages, main.cache, main.order, main.storage.pageMap)
      ensures pageId in old(main.cache) ==>
        (r == Ok(old(main.cache[pageId])) && main.cache == old(main.cache) && main.order == old(main.order)
        && main.storage.pageMap == old(main.storage.pageMap) && pages == old(pages))
      ensures main.statsImpl.cacheHitCount == old(main.statsImpl.cacheHitCount) + (if pageId in old(main.cache) then 1 else 0)
      ensures main.statsImpl.cacheMissCount
        == old(main.statsImpl.cacheMissCount) + (if pageId !in old(main.cache) && r.Ok? then 1 else 0)
      ensures forall q :: q in old(main.cache.Values) && !(r.Ok? && q == r.value) ==> q.pinCount == old(q.pinCount)
    {
      r := DoGetAndPin(pageId, 1);
    }

    /** `load(startPageId, pageCount)`: the main cache's `doLoad` with this sub-cache's `doAddPage`. */
    method Load(startPageId: int, pageCount: int) returns (r: Result<()>)
      requires Valid() && main.Valid()
      modifies this, main, main.storage
      ensures Valid() && main.Valid()
      ensures forall id :: id in main.cache && id !in old(main.cache) ==>
        fresh(main.cache[id]) && main.cache[id].pinCount == 0
      ensures (SubPool(main.order, pages), r)
        == SubLoadSteps(maxCacheSize, old(SubPool(main.order, pages)), Range(startPageId, pageCount))
      ensures unchanged(statsImpl) && unchanged(main.statsImpl)
    {
      r := main.DoLoad(startPageId, pageCount, this);
    }

    /**
     * `flush()`: write the main cache's entries for the members it still holds, in member
     * order; it stops at the first page storage rejects.
     */
    method Flush() returns (r: Result<()>)
      requires Valid() && main.Valid()
      modifies main.storage
      ensures Valid() && main.Valid()
      ensures r.Ok? <==> forall id :: id in main.cache && id in pages ==> id >= 0
      ensures r.Ok? ==> main.storage.pageMap == old(main.storage.pageMap) + PagesOf(main.cache, pages)
      ensures main.storage.pageMap == old(main.storage.pageMap) + PagesOf(main.cache, pages[..FlushStop(pages, main.cache.Keys)])
    {
      var i := 0;
      while i < |pages|
        invariant main.storage.Valid()
        invariant 0 <= i <= |pages|
        invariant forall j :: 0 <= j < i && pages[j] in main.cache ==> pages[j] >= 0
        invariant main.storage.pageMap == old(main.storage.pageMap) + PagesOf(main.cache, pages[..i])
      {
        var id := pages[i];
        ghost var written := PagesOf(main.cache, pages[..i]);
        PagesOfSnoc(main.cache, pages, i);
        if id in main.cache {
          var w := main.storage.WritePage(main.cache[id].diskPage);
          if w.Err? {
            FlushStopAt(pages, main.cache.Keys, i);
            return Err(w.error);
          }
          MergeUpdate(old(main.storage.pageMap), written, id, main.cache[id].diskPage);
        }
        i := i + 1;
      }
      FlushStopAt(pages, main.cache.Keys, i);
      assert pages[..i] == pages;
      r := Ok(());
    }
  }
}
