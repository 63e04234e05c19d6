/**
 * `TableBuilder` of the second generation: it fills a table page by page, asking the access
 * method manager for a fresh page whenever the current one has no room for a record, and
 * keeps the page it writes to pinned.
 */
module TableBuilders {
  import opened Bytes
  import opened StorageApi
  import opened PageLayout
  import opened PageModel
  import opened PageStores
  import opened NameTables
  import opened AccessMethodManagers

  /** The pins after releasing one on page `id`, if it holds any. */
  function Released(pins: map<int, Count>, id: int): (r: map<int, Count>)
    ensures PinsOf(r, id) == if id in pins then PinsOf(pins, id) - 1 else 0
    ensures forall q :: q != id ==> PinsOf(r, q) == PinsOf(pins, q)
  {
    if id in pins then Unpin(pins, id) else pins
  }

  /** Whether releasing a pin on page `id` fails: no pin on an asserting pool, or a last pin on a page without an id. */
  predicate ReleaseFails(assertsPinned: bool, pins: map<int, Count>, id: int) {
    if id in pins then pins[id] == 1 && id < 0 else assertsPinned
  }

  /**
   * Whether `insert`'s page switch reaches the fresh page: the current page's pin is released,
   * the table is known, its directory page takes the new record and `addPage` accepts the oid.
   */
  predicate Switches(assertsPinned: bool, pins: map<int, Count>, pages: map<int, seq<Slot>>, current: int, oid: int, counter: int)
    requires IsInt32(oid) && IsInt32(counter)
  {
    !ReleaseFails(assertsPinned, pins, current) && Known(pages, oid) == Ok(true) && AddFits(pages, oid, counter, 1)
    && !(oid < 0 && oid !in Released(pins, current))
  }

  /** The pages after `add(oid, 1)` and a put of `record` onto the page it hands out, `counter`. */
  function FreshPagePut(pages: map<int, seq<Slot>>, oid: int, counter: int, record: seq<byte>): map<int, seq<Slot>>
    requires IsInt32(oid) && IsInt32(counter)
  {
    var added := AddedPages(pages, oid, counter, 1);
    added[counter := Put(PageOf(added, counter), record, -1).slots]
  }

  /**
   * Pages that show the same slots give `addPage` the same answer and the same directory page,
   * and show the same slots once a fresh page is added and a record put onto it.
   */
  lemma SameSlotsFreshPage(a: map<int, seq<Slot>>, b: map<int, seq<Slot>>, oid: int, counter: int, record: seq<byte>)
    requires SameSlots(a, b) && IsInt32(oid) && IsInt32(counter)
    ensures Known(a, oid) == Known(b, oid) && AddFits(a, oid, counter, 1) == AddFits(b, oid, counter, 1)
    ensures SameSlots(AddedPages(a, oid, counter, 1), AddedPages(b, oid, counter, 1))
    ensures PageOf(AddedPages(a, oid, counter, 1), counter) == PageOf(AddedPages(b, oid, counter, 1), counter)
    ensures SameSlots(FreshPagePut(a, oid, counter, record), FreshPagePut(b, oid, counter, record))
  {
    SameContents(a, b, NAME_SYSTABLE_OID);
    assert PageOf(a, oid) == PageOf(b, oid);
    var added := AddedPages(a, oid, counter, 1);
    if AddStop(counter, 1) > counter {
      SameSlotsUpdate(a, b, oid, PutAll(PageOf(a, oid), RangeRows(oid, counter, AddStop(counter, 1))).0);
    }
    assert PageOf(added, counter) == PageOf(AddedPages(b, oid, counter, 1), counter);
    SameSlotsUpdate(added, AddedPages(b, oid, counter, 1), counter, Put(PageOf(added, counter), record, -1).slots);
  }

  class TableBuilder {
    const manager: SimpleAccessMethodManager
    const store: PageStore
    const tableOid: int
    /** The id of `currentPage`, the page records go to. */
    var currentPage: int

    /** The builder works over the manager's own page cache. */
    predicate Valid()
      reads this, manager, manager.directory, manager.mapping
    {
      manager.Valid() && store == manager.store && IsInt32(tableOid)
    }

    constructor (manager: SimpleAccessMethodManager, tableOid: int, page: int)
      requires manager.Valid() && IsInt32(tableOid)
      ensures this.manager == manager && store == manager.store && this.tableOid == tableOid
      ensures currentPage == page && Valid()
    {
      this.manager := manager;
      store := manager.store;
      this.tableOid := tableOid;
      currentPage := page;
    }

    /**
     * `insert(record)`: the record is appended to the current page. When that page is out of
     * space, it is released, the manager adds one page to the table, that page is pinned and
     * becomes the current page, and the record is put there; the put must succeed.
     */
    /**
     * `newPage()` while a page is current: its pin is released, the manager adds one page to
     * the table, and that page is pinned and becomes the current page.
     */
    method NewPage() returns (r: Result<()>)
      requires Valid()
      modifies this, manager.directory, store
      ensures Valid()
      ensures r.Ok? <==> Switches(store.assertsPinned, old(store.pins), old(store.pages), old(currentPage), tableOid, old(manager.directory.maxPageId))
      ensures r.Ok? ==>
        currentPage == old(manager.directory.maxPageId) && manager.directory.maxPageId == AddStop(old(manager.directory.maxPageId), 1)
        && store.pins == Pin(Released(old(store.pins), old(currentPage)), old(manager.directory.maxPageId))
        && store.pages == AddedPages(old(store.pages), tableOid, old(manager.directory.maxPageId), 1)
      ensures r.Err? ==> currentPage == old(currentPage)
      ensures r.Err? && (ReleaseFails(store.assertsPinned, old(store.pins), old(currentPage)) || Known(old(store.pages), tableOid).Ok?) ==>
        store.pins == Released(old(store.pins), old(currentPage))
      ensures r.Err? ==>
        if !ReleaseFails(store.assertsPinned, old(store.pins), old(currentPage)) && Known(old(store.pages), tableOid) == Ok(true)
          then manager.directory.maxPageId == AddStop(old(manager.directory.maxPageId), 1)
            && store.pages == AddedPages(old(store.pages), tableOid, old(manager.directory.maxPageId), 1)
          else manager.directory.maxPageId == old(manager.directory.maxPageId) && store.pages == old(store.pages)
      ensures r.Err? && Known(old(store.pages), tableOid) == Ok(false) && !ReleaseFails(store.assertsPinned, old(store.pins), old(currentPage))
        ==> r == Err(AccessMethodFailure)
    {
      ghost var known := Known(store.pages, tableOid);
      var closed := store.Close(currentPage);
      if closed.Err? {
        return Err(closed.error);
      }
      var id := manager.AddPage(tableOid, 1);
      if known.Ok? && !known.value {
        assert known == Ok(false);
      }
      if id.Err? {
        return Err(id.error);
      }
      store.GetAndPin(id.value);
      currentPage := id.value;
      r := Ok(());
    }

    method Insert(record: seq<byte>) returns (r: Result<()>)
      requires Valid()
      modifies this, manager.directory, store
      ensures Valid()
      ensures !Put(PageOf(old(store.pages), old(currentPage)), record, -1).result.isOutOfSpace ==>
        (r == Ok(()) && currentPage == old(currentPage) && store.pins == old(store.pins)
        && store.pages == old(store.pages)[old(currentPage) := Put(PageOf(old(store.pages), old(currentPage)), record, -1).slots]
        && manager.directory.maxPageId == old(manager.directory.maxPageId))
      ensures Put(PageOf(old(store.pages), old(currentPage)), record, -1).result.isOutOfSpace ==>
        (ReleaseFails(store.assertsPinned, old(store.pins), old(currentPage)) ==> r.Err?)
      ensures Put(PageOf(old(store.pages), old(currentPage)), record, -1).result.isOutOfSpace ==>
        ((!ReleaseFails(store.assertsPinned, old(store.pins), old(currentPage)) && Known(old(store.pages), tableOid) == Ok(false))
          ==> r == Err(AccessMethodFailure))
      ensures (Put(PageOf(old(store.pages), old(currentPage)), record, -1).result.isOutOfSpace
        && Switches(store.assertsPinned, old(store.pins), old(store.pages), old(currentPage), tableOid, old(manager.directory.maxPageId))) ==>
        (var counter := old(manager.directory.maxPageId);
        r == (if Put(PageOf(AddedPages(old(store.pages), tableOid, counter, 1), counter), record, -1).result.IsOk()
          then Ok(()) else Err(AssertionFailed))
        && currentPage == counter && manager.directory.maxPageId == AddStop(counter, 1)
        && store.pins == Pin(Released(old(store.pins), old(currentPage)), counter)
        && SameSlots(store.pages, FreshPagePut(old(store.pages), tableOid, counter, record)))
      ensures (Put(PageOf(old(store.pages), old(currentPage)), record, -1).result.isOutOfSpace
        && !Switches(store.assertsPinned, old(store.pins), old(store.pages), old(currentPage), tableOid, old(manager.directory.maxPageId))) ==>
        (var counter := old(manager.directory.maxPageId);
        r.Err? && currentPage == old(currentPage)
        && ((ReleaseFails(store.assertsPinned, old(store.pins), old(currentPage)) || Known(old(store.pages), tableOid).Ok?) ==>
          store.pins == Released(old(store.pins), old(currentPage)))
        && if !ReleaseFails(store.assertsPinned, old(store.pins), old(currentPage)) && Known(old(store.pages), tableOid) == Ok(true)
          then manager.directory.maxPageId == AddStop(counter, 1) && SameSlots(store.pages, AddedPages(old(store.pages), tableOid, counter, 1))
          else manager.directory.maxPageId == counter && SameSlots(store.pages, old(store.pages)))
    {
      var put := store.PutRecord(currentPage, record, -1);
      if !put.isOutOfSpace {
        return Ok(());
      }
      ghost var pages1 := store.pages;
      ghost var counter := manager.directory.maxPageId;
      FailedPutSame(old(store.pages), currentPage, record);
      SameSlotsFreshPage(pages1, old(store.pages), tableOid, counter, record);
      var switched := NewPage();
      if switched.Err? {
        return Err(switched.error);
      }
      var retry := store.PutRecord(currentPage, record, -1);
      if !retry.IsOk() {
        return Err(AssertionFailed);
      }
      r := Ok(());
    }

    /** `close()`: the pin on the current page is released. */
    method Close() returns (r: Result<()>)
      modifies store
      ensures store.pages == old(store.pages) && store.pins == Released(old(store.pins), currentPage)
      ensures r.Err? <==> ReleaseFails(store.assertsPinned, old(store.pins), currentPage)
    {
      r := store.Close(currentPage);
    }
  }

  /**
   * The construction of a `TableBuilder` for table `tableOid`: its first `newPage()` has no
   * page to release; the manager adds one page to the table, which is pinned and becomes the
   * current page.
   */
  method Open(manager: SimpleAccessMethodManager, tableOid: int) returns (r: Result<TableBuilder>)
    requires manager.Valid() && IsInt32(tableOid)
    modifies manager.directory, manager.store
    ensures manager.Valid()
    ensures Known(old(manager.store.pages), tableOid) != Ok(true) ==>
      (r.Err? && manager.directory.maxPageId == old(manager.directory.maxPageId) && manager.store.pages == old(manager.store.pages))
    ensures Known(old(manager.store.pages), tableOid) == Ok(true) ==>
      (r.Ok? <==> (AddFits(old(manager.store.pages), tableOid, old(manager.directory.maxPageId), 1)
        && !(tableOid < 0 && tableOid !in old(manager.store.pins))))
    ensures r.Ok? ==> (fresh(r.value) && r.value.Valid() && r.value.manager == manager && r.value.tableOid == tableOid
      && r.value.currentPage == old(manager.directory.maxPageId)
      && manager.directory.maxPageId == AddStop(old(manager.directory.maxPageId), 1)
      && manager.store.pins == Pin(old(manager.store.pins), old(manager.directory.maxPageId))
      && manager.store.pages == AddedPages(old(manager.store.pages), tableOid, old(manager.directory.maxPageId), 1))
  {
    ghost var known := Known(manager.store.pages, tableOid);
    var id := manager.AddPage(tableOid, 1);
    if known.Ok? && !known.value {
      assert known == Ok(false);
    }
    if id.Err? {
      return Err(id.error);
    }
    manager.store.GetAndPin(id.value);
    var builder := new TableBuilder(manager, tableOid, id.value);
    r := Ok(builder);
  }
}
