/**
 * The admission and eviction outcomes both buffer pools share, stated on the cache's
 * insertion-ordered map (`c`, with key order `o`) and the storage's page map (`m`).
 */
module CachePolicy {
  import opened StorageApi
  import opened Sequences
  import opened DiskPages

  /**
   * Two maps that agree on their keys and values are equal (stated pointwise: the solver
   * does not always find this extensionality step by itself).
   */
  lemma SameMap<V>(a: map<int, V>, b: map<int, V>)
    requires forall k :: k in a <==> k in b
    requires forall k :: k in a ==> a[k] == b[k]
    ensures a == b
  {
    forall k | k in a
      ensures k in b && a[k] == b[k]
    { }
    forall k | k in b
      ensures k in a
    { }
  }

  /** Storing one more page after a merge is the merge with that page stored. */
  lemma MergeUpdate<V>(a: map<int, V>, b: map<int, V>, k: int, v: V)
    ensures (a + b)[k := v] == a + b[k := v]
  {
    SameMap((a + b)[k := v], a + b[k := v]);
  }

  /**
   * The outcome of `evict(cachedPage)`: the page is written to storage, which rejects a
   * negative id, and then its id leaves the cache.
   */
  ghost predicate Evicted<V>(c0: map<int, V>, o0: seq<int>, m0: map<int, DiskPage>, page: DiskPage,
                             r: Result<()>, c1: map<int, V>, o1: seq<int>, m1: map<int, DiskPage>)
  {
    if page.id < 0 then r == Err(IllegalArgument) && c1 == c0 && o1 == o0 && m1 == m0
    else r == Ok(()) && m1 == m0[page.id := page] && c1 == c0 - {page.id} && o1 == Without(o0, page.id)
  }

  /**
   * The outcome of `addPage` for a page with id `pageId`, given the disk pages `p0` of the
   * cached entries and the index `k` of the first unpinned page in insertion order (`|o0|`
   * when every page is pinned). Unless the cache holds exactly `max` pages the page is simply
   * added. At the bound the victim is evicted first; with no victim the admission throws, and
   * a failing write-back throws too.
   */
  ghost predicate Admission<V>(max: int, c0: map<int, V>, o0: seq<int>, p0: map<int, DiskPage>,
                               m0: map<int, DiskPage>, k: int, pageId: int, r: Result<V>,
                               c1: map<int, V>, o1: seq<int>, m1: map<int, DiskPage>)
  {
    if |o0| != max then r.Ok? && c1 == c0[pageId := r.value] && o1 == o0 + [pageId] && m1 == m0
    else if !(0 <= k < |o0|) then r == Err(IllegalState) && c1 == c0 && o1 == o0 && m1 == m0
    else if o0[k] < 0 then r == Err(IllegalArgument) && c1 == c0 && o1 == o0 && m1 == m0
    else
      var victim := o0[k];
      r.Ok? && victim in c0 && victim in p0 && m1 == m0[victim := p0[victim]]
      && c1 == (c0 - {victim})[pageId := r.value] && o1 == Without(o0, victim) + [pageId]
  }

  /**
   * An admission keeps the key order an exact index of the map, and a pool that was within a
   * non-negative bound stays within it: at the bound one page leaves for the one that enters.
   */
  lemma AdmissionKeepsIndex<V>(max: int, c0: map<int, V>, o0: seq<int>, p0: map<int, DiskPage>,
                               m0: map<int, DiskPage>, k: int, pageId: int, r: Result<V>,
                               c1: map<int, V>, o1: seq<int>, m1: map<int, DiskPage>)
    requires Indexed(c0, o0) && pageId !in c0
    requires Admission(max, c0, o0, p0, m0, k, pageId, r, c1, o1, m1)
    ensures Indexed(c1, o1)
    ensures r.Ok? ==> pageId in c1 && |o1| <= |o0| + 1
    ensures r.Ok? && 0 <= |o0| <= max ==> |o1| <= max
  {
    if |o0| == max && 0 <= k < |o0| && o0[k] >= 0 {
      var victim := o0[k];
      IndexedRemove(c0, o0, victim);
      IndexedAdd(c0 - {victim}, Without(o0, victim), pageId, r.value);
    } else if |o0| != max {
      IndexedAdd(c0, o0, pageId, r.value);
    }
  }

  /** A buffer pool as `load` sees it: its cached ids in insertion order and their pin counts. */
  datatype Pool = Pool(order: seq<int>, pins: map<int, int>)

  /** Index of the first id of `o` at or after `i` whose pin count is 0, or `|o|` when there is none. */
  function FirstFree(o: seq<int>, pins: map<int, int>, i: int): (k: int)
    requires 0 <= i <= |o|
    ensures i <= k <= |o|
    ensures forall j :: i <= j < k ==> !(o[j] in pins && pins[o[j]] == 0)
    ensures k < |o| ==> o[k] in pins && pins[o[k]] == 0
    decreases |o| - i
  {
    if i == |o| then i
    else if o[i] in pins && pins[o[i]] == 0 then i
    else FirstFree(o, pins, i + 1)
  }

  /**
   * One step of `load` for page `id` on a pool with bound `max`: a cached id changes nothing;
   * otherwise the page is admitted with pin 0 as `addPage` does. At the bound the first
   * unpinned page is evicted first; with every page pinned the step throws, and it throws when
   * storage rejects the victim's negative id.
   */
  function LoadStep(max: int, p: Pool, id: int): (Pool, Result<()>)
  {
    if id in p.order then (p, Ok(()))
    else if |p.order| != max then (Pool(p.order + [id], p.pins[id := 0]), Ok(()))
    else
      var k := FirstFree(p.order, p.pins, 0);
      if k == |p.order| then (p, Err(IllegalState))
      else if p.order[k] < 0 then (p, Err(IllegalArgument))
      else (Pool(Without(p.order, p.order[k]) + [id], (p.pins - {p.order[k]})[id := 0]), Ok(()))
  }

  /** `load` over `ids` in order: one step per id, until a step throws. */
  function LoadSteps(max: int, p: Pool, ids: seq<int>): (Pool, Result<()>)
    decreases |ids|
  {
    if ids == [] then (p, Ok(()))
    else
      var before := LoadSteps(max, p, ids[..|ids| - 1]);
      if before.1.Err? then before else LoadStep(max, before.0, ids[|ids| - 1])
  }

  /**
   * One id more: when the earlier ids left `q0`, the next id's step from `q0` is where the
   * load stands now, and a step that throws is where the whole load ends.
   */
  lemma LoadStepsNext(max: int, p: Pool, ids: seq<int>, i: int, id: int, q0: Pool, q: Pool, r: Result<()>)
    requires 0 <= i < |ids| && ids[i] == id
    requires LoadSteps(max, p, ids[..i]) == (q0, Ok(()))
    requires (q, r) == LoadStep(max, q0, id)
    ensures r.Ok? ==> LoadSteps(max, p, ids[..i + 1]) == (q, Ok(()))
    ensures r.Err? ==> LoadSteps(max, p, ids) == (q, r)
  {
    assert ids[..i + 1][..i] == ids[..i];
    if r.Err? {
      LoadStepsStopped(max, p, ids, i + 1);
    }
  }

  /** Once a step has thrown, the load is over: the later ids change nothing. */
  lemma {:induction false} LoadStepsStopped(max: int, p: Pool, ids: seq<int>, j: int)
    requires 0 <= j <= |ids| && LoadSteps(max, p, ids[..j]).1.Err?
    ensures LoadSteps(max, p, ids) == LoadSteps(max, p, ids[..j])
    decreases |ids| - j
  {
    if j == |ids| {
      assert ids[..j] == ids;
    } else {
      var front := ids[..|ids| - 1];
      assert front[..j] == ids[..j];
      LoadStepsStopped(max, p, front, j);
    }
  }

  /**
   * Without a bound nothing throws and `load` appends exactly the ids that were not cached,
   * in the order they were visited.
   */
  lemma {:induction false} LoadStepsUnbounded(max: int, p: Pool, ids: seq<int>, keys: set<int>)
    requires max < 0 && NoDups(ids)
    requires forall x :: x in keys <==> x in p.order
    ensures LoadSteps(max, p, ids).1 == Ok(())
    ensures LoadSteps(max, p, ids).0.order == p.order + Missing(ids, keys)
    decreases |ids|
  {
    if ids != [] {
      var front := ids[..|ids| - 1];
      var last := ids[|ids| - 1];
      assert ids == front + [last];
      assert NoDups(front) && last !in front;
      LoadStepsUnbounded(max, p, front, keys);
      MissingMembers(front, keys);
    }
  }

  /** One step keeps the ids distinct and a pool within a non-negative bound. */
  lemma LoadStepBound(max: int, p: Pool, id: int)
    requires NoDups(p.order)
    ensures NoDups(LoadStep(max, p, id).0.order)
    ensures 0 <= |p.order| <= max ==> |LoadStep(max, p, id).0.order| <= max
  {
    if id !in p.order && |p.order| != max {
      IndexedAdd(map x | x in p.order :: 0, p.order, id, 0);
    } else if id !in p.order {
      var k := FirstFree(p.order, p.pins, 0);
      if k < |p.order| && p.order[k] >= 0 {
        var o := Without(p.order, p.order[k]);
        IndexedAdd(map x | x in o :: 0, o, id, 0);
      }
    }
  }

  /** `load` keeps the ids distinct, and a pool within a non-negative bound stays within it. */
  lemma {:induction false} LoadStepsBound(max: int, p: Pool, ids: seq<int>)
    requires NoDups(p.order)
    ensures NoDups(LoadSteps(max, p, ids).0.order)
    ensures 0 <= |p.order| <= max ==> |LoadSteps(max, p, ids).0.order| <= max
    decreases |ids|
  {
    if ids != [] {
      var front := ids[..|ids| - 1];
      LoadStepsBound(max, p, front);
      LoadStepBound(max, LoadSteps(max, p, front).0, ids[|ids| - 1]);
    }
  }

  /**
   * What `load` may do to pages and pins, from `p` to `q` over the ids `ids`: a pinned page
   * stays with its pin count, every page afterwards has pin 0 or the pin count it had, and
   * every page afterwards was cached before or is one of the ids.
   */
  ghost predicate LoadKeeps(p: Pool, ids: seq<int>, q: Pool) {
    (forall x :: x in p.order && x in p.pins && p.pins[x] != 0 ==> x in q.order && x in q.pins && q.pins[x] == p.pins[x])
    && (forall x :: x in q.order ==> x in q.pins && (q.pins[x] == 0 || (x in p.pins && q.pins[x] == p.pins[x])))
    && (forall x :: x in q.order ==> x in p.order || x in ids)
  }

  /** One step only admits its own id with pin 0 and only evicts a page with pin 0. */
  lemma LoadStepKeeps(max: int, p: Pool, id: int)
    requires forall x :: x in p.order ==> x in p.pins
    ensures LoadKeeps(p, [id], LoadStep(max, p, id).0)
  {
    if id !in p.order && |p.order| == max {
      var k := FirstFree(p.order, p.pins, 0);
      if k < |p.order| && p.order[k] >= 0 {
        var v := p.order[k];
        var q := LoadStep(max, p, id).0;
        forall x | x in p.order && x in p.pins && p.pins[x] != 0
          ensures x in q.order
        {
          assert x != v;
        }
      }
    }
  }

  /**
   * `load` never drops a pinned page and never changes a pin count: it only adds pages with
   * pin 0, for ids it visits, and only evicts pages with pin 0.
   */
  lemma {:induction false} LoadStepsKeeps(max: int, p: Pool, ids: seq<int>)
    requires forall x :: x in p.order ==> x in p.pins
    ensures LoadKeeps(p, ids, LoadSteps(max, p, ids).0)
    decreases |ids|
  {
    if ids != [] {
      var front := ids[..|ids| - 1];
      var last := ids[|ids| - 1];
      LoadStepsKeeps(max, p, front);
      var q := LoadSteps(max, p, front).0;
      LoadStepKeeps(max, q, last);
      assert forall x :: x in front || x == last ==> x in ids;
    }
  }

  /** An eviction keeps the key order an exact index of the map. */
  lemma EvictionKeepsIndex<V>(c0: map<int, V>, o0: seq<int>, m0: map<int, DiskPage>, page: DiskPage,
                              r: Result<()>, c1: map<int, V>, o1: seq<int>, m1: map<int, DiskPage>)
    requires Indexed(c0, o0)
    requires Evicted(c0, o0, m0, page, r, c1, o1, m1)
    ensures Indexed(c1, o1)
    ensures r.Ok? ==> page.id !in c1 && page.id in m1 && m1[page.id] == page
  {
    if page.id >= 0 {
      IndexedRemove(c0, o0, page.id);
    }
  }
}
