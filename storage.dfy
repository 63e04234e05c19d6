/**
 * `HardDiskEmulatorStorage`: an ordered map from page id to page object. Pages are handed
 * out and stored by reference, so a page read from the storage and changed by its reader
 * is changed in the storage too. The access-cost counter is not modelled.
 */
module DiskStorage {
  import opened StorageApi
  import opened PageLayout
  import opened PageModel
  import opened DiskPages

  /** `TreeMap.lastKey()`: the largest key. */
  ghost function LastKey(keys: set<int>): (k: int)
    requires keys != {}
    ensures k in keys && forall j :: j in keys ==> j <= k
  {
    MaxExists(keys);
    var k :| k in keys && forall j :: j in keys ==> j <= k; k
  }

  lemma {:induction false} MaxExists(keys: set<int>)
    requires keys != {}
    ensures exists k :: k in keys && forall j :: j in keys ==> j <= k
    decreases |keys|
  {
    if forall j :: j !in keys {
      assert false;
    }
    var x :| x in keys;
    var rest := keys - {x};
    if rest == {} {
      forall j | j in keys
        ensures j <= x
      {
        assert j !in rest;
      }
    } else {
      MaxExists(rest);
      var k :| k in rest && forall j :: j in rest ==> j <= k;
      var m := if k < x then x else k;
      forall j | j in keys
        ensures j <= m
      {
        assert j == x || j in rest;
      }
      assert m in keys;
    }
  }

  /** The id `createPage` gives: 0 on an empty storage, otherwise one past the largest id. */
  ghost function NextPageId(keys: set<int>): (n: int)
    ensures forall j :: j in keys ==> j < n
    ensures keys == {} ==> n == 0
  {
    if keys == {} then 0 else LastKey(keys) + 1
  }

  class Storage {
    var pageMap: map<int, DiskPage>

    /** Every page is stored under its own id. */
    ghost predicate Valid()
      reads this
    {
      forall k :: k in pageMap ==> pageMap[k].id == k
    }

    constructor ()
      ensures Valid() && pageMap == map[]
    {
      pageMap := map[];
    }

    /** `readPage(pageId)`: the stored page itself, or a fresh empty page that is not stored. */
    method ReadPage(pageId: int) returns (page: DiskPage)
      requires Valid()
      ensures page.id == pageId
      ensures pageId in pageMap ==> page == pageMap[pageId]
      ensures pageId !in pageMap ==> fresh(page) && fresh(page.bytes) && page.Valid() && page.Records() == []
    {
      if pageId in pageMap {
        page := pageMap[pageId];
      } else {
        page := new DiskPage(pageId);
      }
    }

    /**
     * `readPageSequence(startPageId, numPages, reader)`: the pages `readPage` gives for
     * `startPageId, startPageId + 1, ...`, in that order, as the reader is handed them.
     */
    method ReadPageSequence(startPageId: int, numPages: int) returns (pages: seq<DiskPage>)
      requires Valid()
      ensures |pages| == if numPages < 0 then 0 else numPages
      ensures forall i :: 0 <= i < |pages| ==> pages[i].id == startPageId + i
      ensures forall i :: 0 <= i < |pages| && startPageId + i in pageMap ==> pages[i] == pageMap[startPageId + i]
      ensures forall i :: 0 <= i < |pages| && startPageId + i !in pageMap ==>
        fresh(pages[i]) && pages[i].Valid() && pages[i].Records() == []
    {
      pages := [];
      var pageId := startPageId;
      while pageId < startPageId + numPages
        invariant startPageId <= pageId && |pages| == pageId - startPageId
        invariant numPages >= 0 ==> pageId <= startPageId + numPages
        invariant numPages < 0 ==> pages == []
        invariant forall i :: 0 <= i < |pages| ==> pages[i].id == startPageId + i
        invariant forall i :: 0 <= i < |pages| && startPageId + i in pageMap ==> pages[i] == pageMap[startPageId + i]
        invariant forall i :: 0 <= i < |pages| && startPageId + i !in pageMap ==>
          fresh(pages[i]) && pages[i].Valid() && pages[i].Records() == []
      {
        var page := ReadPage(pageId);
        pages := pages + [page];
        pageId := pageId + 1;
      }
    }

    /** `writePage(page)`: store the page under its id; a negative id is rejected. */
    method WritePage(page: DiskPage) returns (r: Result<()>)
      requires Valid()
      modifies this
      ensures Valid()
      ensures page.id < 0 ==> r == Err(IllegalArgument) && pageMap == old(pageMap)
      ensures page.id >= 0 ==> r == Ok(()) && pageMap == old(pageMap)[page.id := page]
    {
      if page.id < 0 {
        return Err(IllegalArgument);
      }
      pageMap := pageMap[page.id := page];
      r := Ok(());
    }

    /** `createPage()`: a fresh empty page, stored under the next id. */
    method CreatePage() returns (page: DiskPage)
      requires Valid()
      modifies this
      ensures Valid() && fresh(page) && fresh(page.bytes) && page.Valid() && page.Records() == []
      ensures page.id == NextPageId(old(pageMap).Keys) && pageMap == old(pageMap)[page.id := page]
    {
      var nextKey := 0;
      if pageMap != map[] {
        nextKey := LastPageId();
        nextKey := nextKey + 1;
      }
      page := new DiskPage(nextKey);
      pageMap := pageMap[nextKey := page];
    }

    /** `pageMap.lastKey()`. */
    method LastPageId() returns (k: int)
      requires pageMap != map[]
      ensures k == LastKey(pageMap.Keys)
    {
      MaxExists(pageMap.Keys);
      k :| k in pageMap && forall j :: j in pageMap ==> j <= k;
    }

    /**
     * `writePageSequence()`: a writer that stores the pages it is given under consecutive
     * ids after the largest one. On an empty storage `lastKey()` throws.
     */
    method WritePageSequence() returns (r: Result<PageSequenceWriter>)
      requires Valid()
      ensures r.Ok? <==> pageMap != map[]
      ensures r.Ok? ==> (fresh(r.value) && r.value.storage == this
        && r.value.nextKey == LastKey(pageMap.Keys) + 1 && r.value.numPages == 0)
    {
      if pageMap == map[] {
        return Err(NoSuchElement);
      }
      var last := LastPageId();
      var writer := new PageSequenceWriter(this, last + 1);
      r := Ok(writer);
    }
  }

  /** The function `writePageSequence` returns, with the two counters it captures. */
  class PageSequenceWriter {
    const storage: Storage
    var nextKey: int
    var numPages: int

    constructor (storage: Storage, nextKey: int)
      ensures this.storage == storage && this.nextKey == nextKey && numPages == 0
    {
      this.storage := storage;
      this.nextKey := nextKey;
      numPages := 0;
    }

    /**
     * Applying the writer: `null` ends the sequence; a page is rebuilt over its own bytes
     * (the array is shared) under the next id, stored, and returned.
     */
    method Apply(pageIn: DiskPage?) returns (pageOut: DiskPage?)
      requires storage.Valid() && (pageIn != null ==> pageIn.Valid())
      modifies this, storage
      ensures storage.Valid()
      ensures pageIn == null ==> (pageOut == null && nextKey == old(nextKey) && numPages == old(numPages)
        && storage.pageMap == old(storage.pageMap))
      ensures pageIn != null ==> (pageOut != null && fresh(pageOut)
        && pageOut.id == old(nextKey) && pageOut.bytes == pageIn.bytes
        && pageOut.Valid() && pageOut.Records() == pageIn.Records()
        && storage.pageMap == old(storage.pageMap)[old(nextKey) := pageOut]
        && nextKey == old(nextKey) + 1 && numPages == old(numPages) + 1)
    {
      if pageIn == null {
        return null;
      }
      pageOut := new DiskPage.Rebuilt(nextKey, pageIn.bytes);
      storage.pageMap := storage.pageMap[nextKey := pageOut];
      numPages := numPages + 1;
      nextKey := nextKey + 1;
    }
  }
}
