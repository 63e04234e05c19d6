/**
 * `SimplePageDirectoryImpl` of the second-generation `AccessMethods.kt`, the page directory the
 * first-generation catalog works with. Directory page `oid` lists the pages of table `oid` as
 * `(oid, pageId)` records; `add` hands out page ids from a counter that starts just past the
 * directory pages and writes the record for the id it hands out.
 */
module PageDirectories {
  import opened Bytes
  import opened StorageApi
  import opened PageLayout
  import opened PageModel
  import opened PageStores
  import opened Scans
  import RootRecordScans
  import opened NameTables

  /** The first page id after the directory pages, where the counter starts. */
  const FIRST_DATA_PAGE: int := MAX_ROOT_PAGE_COUNT + 1

  /** The id `add(oid, pageid)` hands out when the counter is at `counter`: the counter for `-1`, `pageid` otherwise. */
  function HandedOut(counter: int, pageid: int): (id: int)
    ensures pageid == -1 ==> id == counter
    ensures pageid != -1 ==> id == pageid
  {
    if pageid == -1 then counter else pageid
  }

  /** `1 + max(maxPageId, pageid)` in 32-bit arithmetic: past both, unless it wraps. */
  function NextCounter(counter: int, pageid: int): (next: int)
    requires IsInt32(counter) && IsInt32(pageid)
    ensures IsInt32(next)
    ensures (if counter > pageid then counter else pageid) < INT_MAX ==> next > counter && next > pageid
    ensures (if counter > pageid then counter else pageid) == INT_MAX ==> next == INT_MIN
  {
    Wrap32(1 + if counter > pageid then counter else pageid)
  }

  /** No `add` of the sequence `pageids`, started with the counter at `counter`, wraps the counter around. */
  predicate NoWrap(counter: int, pageids: seq<int>)
    decreases |pageids|
  {
    pageids == [] ||
      (IsInt32(counter) && IsInt32(pageids[0]) && (if counter > pageids[0] then counter else pageids[0]) < INT_MAX
       && NoWrap(NextCounter(counter, pageids[0]), pageids[1..]))
  }

  /** The ids a sequence of `add` calls hands out, started with the counter at `counter`. */
  function HandedOutIds(counter: int, pageids: seq<int>): (ids: seq<int>)
    requires NoWrap(counter, pageids)
    ensures |ids| == |pageids|
    decreases |pageids|
  {
    if pageids == [] then []
    else [HandedOut(counter, pageids[0])] + HandedOutIds(NextCounter(counter, pageids[0]), pageids[1..])
  }

  /**
   * Fresh ids are fresh: while the counter does not wrap, an id handed out for `-1` is at least
   * the starting counter and larger than every id handed out before it, explicit ones included.
   */
  lemma {:induction false} FreshIdsExceedEarlier(counter: int, pageids: seq<int>)
    requires NoWrap(counter, pageids)
    ensures forall j :: 0 <= j < |pageids| && pageids[j] == -1 ==> HandedOutIds(counter, pageids)[j] >= counter
    ensures forall i, j :: 0 <= i < j < |pageids| && pageids[j] == -1 ==>
      HandedOutIds(counter, pageids)[i] < HandedOutIds(counter, pageids)[j]
    decreases |pageids|
  {
    if pageids != [] {
      var next := NextCounter(counter, pageids[0]);
      var tail := pageids[1..];
      FreshIdsExceedEarlier(next, tail);
      var ids := HandedOutIds(counter, pageids);
      assert forall j :: 1 <= j < |pageids| ==> ids[j] == HandedOutIds(next, tail)[j - 1] && pageids[j] == tail[j - 1];
    }
  }

  /** Starting from `FIRST_DATA_PAGE`, every id handed out for `-1` lies past the directory pages. */
  lemma FreshIdsPastDirectory(pageids: seq<int>)
    requires NoWrap(FIRST_DATA_PAGE, pageids)
    ensures forall j :: 0 <= j < |pageids| && pageids[j] == -1 ==> HandedOutIds(FIRST_DATA_PAGE, pageids)[j] > MAX_ROOT_PAGE_COUNT
  {
    FreshIdsExceedEarlier(FIRST_DATA_PAGE, pageids);
  }

  /**
   * Appending the record `(oid, id)` to directory page `oid` adds `(oid, id)` at the end of what
   * the directory lists for table `oid`, and `id` at the end of the table's pages.
   */
  lemma AppendToDirectory(pages: map<int, seq<Slot>>, oid: int, id: int)
    requires IsInt32(oid) && IsInt32(id)
    requires !Put(PageOf(pages, oid), OidPageidBytes(oid, id), -1).result.isOutOfSpace
    ensures var after := pages[oid := Put(PageOf(pages, oid), OidPageidBytes(oid, id), -1).slots];
      DirectoryRoots(after, oid) == (match DirectoryRoots(pages, oid)
        case Ok(roots) => Ok(roots + [OidPageid(oid, id)])
        case Err(e) => Err(e))
    ensures var after := pages[oid := Put(PageOf(pages, oid), OidPageidBytes(oid, id), -1).slots];
      DirectoryRoots(pages, oid).Ok? ==> TablePages(DirectoryRoots(after, oid).value, oid) == TablePages(DirectoryRoots(pages, oid).value, oid) + [id]
  {
    var slots := PageOf(pages, oid);
    var data := OidPageidBytes(oid, id);
    var after := pages[oid := Put(slots, data, -1).slots];
    assert Put(slots, data, -1).slots == slots + [Slot(false, data)];
    assert (slots + [Slot(false, data)])[..|slots|] == slots;
    assert Live(PageOf(after, oid)) == Live(slots) + [data];
    assert Range(after, oid, oid + 1) == [PageOf(after, oid)];
    assert Range(pages, oid, oid + 1) == [slots];
    assert Rows([PageOf(after, oid)]) == Live(slots) + [data];
    assert Rows([slots]) == Live(slots);
    ParseOidPageidBytes(oid, id, []);
    assert data + [] == data;
    if ParseAll(Live(slots)).Ok? {
      ParseAllSnoc(Live(slots), data);
      TablePagesSnoc(ParseAll(Live(slots)).value, OidPageid(oid, id), oid);
    } else {
      assert (Live(slots) + [data])[..|Live(slots)|] == Live(slots);
    }
  }

  /** `SimplePageDirectoryImpl`: the page-id counter and the pages it hands out ids for. */
  class PageDirectory {
    const store: PageStore
    var maxPageId: int

    /** The counter is a 32-bit `PageId`. */
    predicate Valid()
      reads this
    {
      IsInt32(maxPageId)
    }

    constructor (store: PageStore)
      ensures this.store == store && maxPageId == FIRST_DATA_PAGE && Valid()
    {
      this.store := store;
      maxPageId := FIRST_DATA_PAGE;
    }

    /**
     * `records(tableOid)`: the `(oid, pageId)` records of directory page `tableOid` alone,
     * read with a root-record iterator over that one page, which it releases again.
     */
    method Records(tableOid: int) returns (r: Result<seq<OidPageid>>)
      modifies store
      ensures store.pages == old(store.pages)
      ensures r.Ok? ==> r == DirectoryRoots(store.pages, tableOid) && store.pins == old(store.pins)
      ensures r.Err? ==> DirectoryRoots(store.pages, tableOid).Err? || tableOid < 0
    {
      r := RootRecordScans.RootRecordsList(store, tableOid, 1);
    }

    /**
     * `add(tableOid, pageid)`: the id handed out is the counter for `-1` and `pageid`
     * otherwise; the counter moves past both. The record `(tableOid, id)` is appended to
     * directory page `tableOid` under a pin released at the end. A full directory page fails
     * with a catalog error, after the counter has moved; releasing the pin on a page without
     * an id fails too.
     */
    method Add(tableOid: int, pageid: int) returns (r: Result<int>)
      requires Valid() && IsInt32(tableOid) && IsInt32(pageid)
      modifies this, store
      ensures Valid() && maxPageId == NextCounter(old(maxPageId), pageid)
      ensures store.pins == old(store.pins)
      ensures var put := Put(old(store.Slots(tableOid)), OidPageidBytes(tableOid, HandedOut(old(maxPageId), pageid)), -1);
        store.pages == old(store.pages)[tableOid := put.slots]
        && r == if put.result.isOutOfSpace then Err(CatalogFailure)
          else if tableOid < 0 && tableOid !in old(store.pins) then Err(IllegalArgument)
          else Ok(HandedOut(old(maxPageId), pageid))
    {
      var nextPageId := if pageid == -1 then maxPageId else pageid;
      maxPageId := NextCounter(maxPageId, pageid);
      store.GetAndPin(tableOid);
      var put := store.PutRecord(tableOid, OidPageidBytes(tableOid, nextPageId), -1);
      var closed := store.Close(tableOid);
      UnpinPin(old(store.pins), tableOid);
      if put.isOutOfSpace {
        return Err(CatalogFailure);
      }
      if closed.Err? {
        return Err(closed.error);
      }
      r := Ok(nextPageId);
    }
  }
}
