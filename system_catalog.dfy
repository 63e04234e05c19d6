/**
 * The first-generation system catalog, `DumbSystemCatalogImpl` with its `TableOidMapping`:
 * table names are kept as `(oid, name)` records in the name table, whose pages the page
 * directory lists; lookups by name are memoised, misses included. Its scans pin the pages they
 * visit.
 */
module DumbSystemCatalogs {
  import opened Bytes
  import opened StorageApi
  import opened PageLayout
  import opened PageModel
  import opened PageStores
  import opened Scans
  import opened FullScans
  import opened NameTables
  import opened PageDirectories

  /** The `seekFirstPage` filter of `create`: the page has more free space than the record and its directory entry take. */
  function Roomy(size: int): seq<Slot> -> bool {
    s => Free(s) > size + ENTRY_SIZE
  }

  /** A page `Roomy(size)` takes has room to append a record of `size` bytes. */
  lemma RoomyFits(slots: seq<Slot>, data: seq<byte>)
    requires Roomy(|data|)(slots)
    ensures Put(slots, data, -1) == PutOutcome(PutRecordResult(|slots|, false, false), slots + [Slot(false, data)])
  {
  }

  /** `nextTableOid()`: the largest stored oid, at least `NAME_SYSTABLE_OID + 1`, with no `+ 1` after it. */
  function LegacyNextOid(pages: map<int, seq<Slot>>): Result<int> {
    match TableContents(pages, NAME_SYSTABLE_OID)
    case Err(e) => Err(e)
    case Ok(rows) => MaxOid(rows, NAME_SYSTABLE_OID + 1)
  }

  /**
   * The page `create` writes a name record of `size` bytes to, if the name table has one: the
   * scan's `init` step has already passed the first name-table page holding a record, and
   * `seekFirstPage` looks from there on.
   */
  function LegacyTarget(pages: map<int, seq<Slot>>, roots: seq<OidPageid>, size: int): Option<int> {
    FirstAccepted(pages, roots, NAME_SYSTABLE_OID, StartAfter(pages, roots, NAME_SYSTABLE_OID, 0), Roomy(size))
  }

  /**
   * How many directory records of page 0 that search has taken when it finds a page: while
   * some are left, the root-record iterator behind the abandoned scan keeps page 0 pinned.
   */
  function LegacyStop(pages: map<int, seq<Slot>>, roots: seq<OidPageid>, size: int): nat {
    AcceptedEnd(pages, roots, NAME_SYSTABLE_OID, StartAfter(pages, roots, NAME_SYSTABLE_OID, 0), Roomy(size))
  }

  /** `OidNameRecord(intField(), stringField(tableName)).asBytes()`: the oid field keeps its default 0. */
  function LegacyNameRecord(name: Name): (bs: seq<byte>)
    requires NameOk(name)
    ensures |bs| == 8 + 2 * |name|
  {
    OidNameBytes(0, name)
  }

  /** The page `create` writes the name record to: the one seeking finds, else the id a new directory record hands out. */
  function LegacyNamePage(pages: map<int, seq<Slot>>, counter: int, name: Name): int
    requires DirectoryRoots(pages, NAME_SYSTABLE_OID).Ok? && NameOk(name)
  {
    var target := LegacyTarget(pages, DirectoryRoots(pages, NAME_SYSTABLE_OID).value, |LegacyNameRecord(name)|);
    if target.Some? then target.value else counter
  }

  /** The pages once `create` has found or added its page: with a new directory record for the name table when seeking found none. */
  function LegacyDirectoryStep(pages: map<int, seq<Slot>>, counter: int, name: Name): map<int, seq<Slot>>
    requires DirectoryRoots(pages, NAME_SYSTABLE_OID).Ok? && NameOk(name) && IsInt32(counter)
  {
    if LegacyTarget(pages, DirectoryRoots(pages, NAME_SYSTABLE_OID).value, |LegacyNameRecord(name)|).Some? then pages
    else pages[NAME_SYSTABLE_OID := Put(PageOf(pages, NAME_SYSTABLE_OID), OidPageidBytes(NAME_SYSTABLE_OID, counter), -1).slots]
  }

  /** The pages after `create`: the name record appended to its page, whether or not it fit. */
  function LegacyCreatedPages(pages: map<int, seq<Slot>>, counter: int, name: Name): map<int, seq<Slot>>
    requires DirectoryRoots(pages, NAME_SYSTABLE_OID).Ok? && NameOk(name) && IsInt32(counter)
  {
    var dir := LegacyDirectoryStep(pages, counter, name);
    var page := LegacyNamePage(pages, counter, name);
    dir[page := Put(PageOf(dir, page), LegacyNameRecord(name), -1).slots]
  }

  /**
   * Once its record fits, the name `create` registers is in the name table, on a page the
   * name table's directory lists.
   */
  lemma LegacyCreateListsName(pages: map<int, seq<Slot>>, counter: int, name: Name)
    requires DirectoryRoots(pages, NAME_SYSTABLE_OID).Ok? && NameOk(name) && IsInt32(counter)
    requires LegacyNamePage(pages, counter, name) != NAME_SYSTABLE_OID
    requires LegacyTarget(pages, DirectoryRoots(pages, NAME_SYSTABLE_OID).value, |LegacyNameRecord(name)|).None? ==>
      !Put(PageOf(pages, NAME_SYSTABLE_OID), OidPageidBytes(NAME_SYSTABLE_OID, counter), -1).result.isOutOfSpace
    requires var dir := LegacyDirectoryStep(pages, counter, name);
      !Put(PageOf(dir, LegacyNamePage(pages, counter, name)), LegacyNameRecord(name), -1).result.isOutOfSpace
    ensures TableContents(LegacyCreatedPages(pages, counter, name), NAME_SYSTABLE_OID).Ok?
    ensures LegacyNameRecord(name) in TableContents(LegacyCreatedPages(pages, counter, name), NAME_SYSTABLE_OID).value
  {
    var roots := DirectoryRoots(pages, NAME_SYSTABLE_OID).value;
    var bytes := LegacyNameRecord(name);
    var target := LegacyTarget(pages, roots, |bytes|);
    var dir := LegacyDirectoryStep(pages, counter, name);
    var page := LegacyNamePage(pages, counter, name);
    if target.Some? {
      var from := StartAfter(pages, roots, NAME_SYSTABLE_OID, 0);
      FirstAcceptedIsFirst(pages, roots, NAME_SYSTABLE_OID, from, Roomy(|bytes|));
      var k :| from <= k < |roots| && roots[k] == OidPageid(NAME_SYSTABLE_OID, target.value);
      assert roots[k] in roots;
      TablePagesMembers(roots, NAME_SYSTABLE_OID);
    } else {
      AppendToDirectory(pages, NAME_SYSTABLE_OID, counter);
    }
    AppendedRecordListed(dir, page, bytes);
  }

  /**
   * Every table gets oid 1: while every name record holds oid 0, which is what `create`
   * writes, `nextTableOid` is 1, and the record `create` adds holds oid 0 again.
   */
  lemma EveryOidIsOne(rows: seq<seq<byte>>, name: Name)
    requires NameOk(name)
    requires forall k :: 0 <= k < |rows| ==> ParseOidName(rows[k]).Ok? && ParseOidName(rows[k]).value.oid == 0
    ensures MaxOid(rows, NAME_SYSTABLE_OID + 1) == Ok(1)
    ensures ParseOidName(LegacyNameRecord(name)).Ok? && ParseOidName(LegacyNameRecord(name)).value.oid == 0
  {
    MaxOidBounds(rows, 1);
    MaxOidAttained(rows, 1);
    ParseOidNameBytes(0, name, []);
    assert LegacyNameRecord(name) + [] == LegacyNameRecord(name);
  }

  /**
   * The name table's only page, 4097, holds one record and has room for more; `create`'s seek
   * still finds no page, because the scan's `init` step has already passed page 4097, while a
   * seek from the start of the directory would have found it.
   */
  lemma SeekSkipsFirstPage()
    ensures var pages := map[FIRST_DATA_PAGE := [Slot(false, OidNameBytes(1, [0x61]))]];
      var roots := [OidPageid(NAME_SYSTABLE_OID, FIRST_DATA_PAGE)];
      StartAfter(pages, roots, NAME_SYSTABLE_OID, 0) == 1
      && LegacyTarget(pages, roots, 10) == None
      && FirstAccepted(pages, roots, NAME_SYSTABLE_OID, 0, Roomy(10)) == Some(FIRST_DATA_PAGE)
  {
    var pages := map[FIRST_DATA_PAGE := [Slot(false, OidNameBytes(1, [0x61]))]];
    var roots := [OidPageid(NAME_SYSTABLE_OID, FIRST_DATA_PAGE)];
    assert PageOf(pages, FIRST_DATA_PAGE) == [Slot(false, OidNameBytes(1, [0x61]))];
    assert Live(PageOf(pages, FIRST_DATA_PAGE)) != [];
    assert StartAfter(pages, roots, NAME_SYSTABLE_OID, 0) == 1;
  }

  /** `TableOidMapping` of the first generation. */
  class TableOidMapping {
    const store: PageStore
    const directory: PageDirectory
    /** `cachedMapping`: every name looked up or created, `-1` for a name that was missing. */
    var cachedMapping: map<Name, int>

    predicate Valid()
      reads this, directory
    {
      directory.store == store && directory.Valid()
    }

    constructor (store: PageStore, directory: PageDirectory)
      requires directory.store == store && directory.Valid()
      ensures this.store == store && this.directory == directory && cachedMapping == map[] && Valid()
    {
      this.store := store;
      this.directory := directory;
      cachedMapping := map[];
    }

    /**
     * `get(tableName)`: the memoised oid, or else the oid of the first name record with the
     * name, `-1` when there is none, which is then memoised; `-1` reads as no table. The scan
     * fails on records that do not parse, or on releasing a page without an id.
     */
    method Get(name: Name) returns (r: Result<Option<int>>)
      requires Valid()
      modifies this, store
      ensures Valid() && store.pages == old(store.pages)
      ensures name in old(cachedMapping) ==> r.Ok? && cachedMapping == old(cachedMapping)
      ensures r.Ok? ==> (Resolved(old(cachedMapping), old(store.pages), name).Ok? && r.value == Present(Resolved(old(cachedMapping), old(store.pages), name).value)
        && cachedMapping == old(cachedMapping)[name := Resolved(old(cachedMapping), old(store.pages), name).value] && store.pins == old(store.pins))
      ensures r.Err? ==> cachedMapping == old(cachedMapping) && (Resolved(old(cachedMapping), old(store.pages), name).Err? || r.error == IllegalArgument)
    {
      if name in cachedMapping {
        assert cachedMapping == cachedMapping[name := cachedMapping[name]];
        return Ok(Present(cachedMapping[name]));
      }
      var rows := ReadTable(store, NAME_SYSTABLE_OID, true);
      if rows.Err? {
        return Err(rows.error);
      }
      var found := SearchName(rows.value, name);
      if found.Err? {
        return Err(found.error);
      }
      var oid := if found.value.Some? then found.value.value else -1;
      cachedMapping := cachedMapping[name := oid];
      r := Ok(Present(oid));
    }

    /** `nextTableOid()`, with the `forEach` over a scan of the name table. */
    method NextTableOid() returns (r: Result<int>)
      modifies store
      ensures store.pages == old(store.pages)
      ensures r.Ok? ==> r == LegacyNextOid(store.pages) && store.pins == old(store.pins)
      ensures r.Err? ==> LegacyNextOid(store.pages).Err? || r.error == IllegalArgument
    {
      var rows := ReadTable(store, NAME_SYSTABLE_OID, true);
      if rows.Err? {
        return Err(rows.error);
      }
      r := FoldMaxOid(rows.value, NAME_SYSTABLE_OID + 1);
    }

    /**
     * The page `create` writes to: a scan of the name table is opened, which buffers its first
     * record, and `seekFirstPage` looks on from there for a page with room, leaving the page it
     * finds pinned; when it finds none, the directory adds a page to the name table.
     */
    method PageForName(name: Name) returns (r: Result<int>)
      requires Valid() && NameOk(name)
      modifies store, directory
      ensures Valid()
      ensures r.Ok? ==> (DirectoryRoots(old(store.pages), NAME_SYSTABLE_OID).Ok?
        && r.value == LegacyNamePage(old(store.pages), old(directory.maxPageId), name)
        && store.pages == LegacyDirectoryStep(old(store.pages), old(directory.maxPageId), name))
      ensures r.Ok? ==>
        var target := LegacyTarget(old(store.pages), DirectoryRoots(old(store.pages), NAME_SYSTABLE_OID).value, |LegacyNameRecord(name)|);
        directory.maxPageId == (if target.Some? then old(directory.maxPageId) else NextCounter(old(directory.maxPageId), -1))
        && (TableContents(old(store.pages), NAME_SYSTABLE_OID) != Ok([]) ==>
              store.pins == if target.None? then old(store.pins)
                else if LegacyStop(old(store.pages), DirectoryRoots(old(store.pages), NAME_SYSTABLE_OID).value, |LegacyNameRecord(name)|)
                  < |DirectoryRoots(old(store.pages), NAME_SYSTABLE_OID).value|
                then Pin(Pin(old(store.pins), target.value), NAME_SYSTABLE_OID)
                else Pin(old(store.pins), target.value))
      ensures r.Err? ==> DirectoryRoots(old(store.pages), NAME_SYSTABLE_OID).Err? || r.error in {IllegalArgument, AssertionFailed, CatalogFailure}
    {
      var bytes := LegacyNameRecord(name);
      var roots := directory.Records(NAME_SYSTABLE_OID);
      if roots.Err? {
        return Err(roots.error);
      }
      var scan := Open(store, NAME_SYSTABLE_OID, roots.value, true);
      if scan.Err? {
        return Err(scan.error);
      }
      var it := scan.value;
      if it.currentRecord.None? {
        it.Finished();
      }
      var found := it.SeekFirstPage(Roomy(|bytes|));
      if found.Err? {
        return Err(found.error);
      }
      if found.value.Some? {
        // The root-record iterator over directory page 0 pinned that page in its `init` and
        // releases it only once it has handed out the page's last record; the scan is
        // abandoned here, so with records left that pin is never released.
        if it.rootPos < |roots.value| {
          store.GetAndPin(NAME_SYSTABLE_OID);
        }
        return Ok(found.value.value);
      }
      var added := directory.Add(NAME_SYSTABLE_OID, -1);
      if added.Err? {
        return Err(added.error);
      }
      r := Ok(added.value);
    }

    /**
     * `create(tableName)`: the oid is `nextTableOid()`; the record written keeps oid 0 and goes
     * to the page `PageForName` picks, under a pin released again; its put result is not
     * looked at. The name is then memoised with the new oid.
     */
    method Create(name: Name) returns (r: Result<int>)
      requires Valid() && NameOk(name)
      modifies this, store, directory
      ensures Valid()
      ensures r.Ok? ==> r == LegacyNextOid(old(store.pages)) && cachedMapping == old(cachedMapping)[name := r.value]
      ensures r.Ok? ==> (DirectoryRoots(old(store.pages), NAME_SYSTABLE_OID).Ok?
        && store.pages == LegacyCreatedPages(old(store.pages), old(directory.maxPageId), name))
      ensures r.Ok? ==>
        var target := LegacyTarget(old(store.pages), DirectoryRoots(old(store.pages), NAME_SYSTABLE_OID).value, |LegacyNameRecord(name)|);
        directory.maxPageId == (if target.Some? then old(directory.maxPageId) else NextCounter(old(directory.maxPageId), -1))
        && (TableContents(old(store.pages), NAME_SYSTABLE_OID) != Ok([]) ==>
              store.pins == if target.None? then old(store.pins)
                else if LegacyStop(old(store.pages), DirectoryRoots(old(store.pages), NAME_SYSTABLE_OID).value, |LegacyNameRecord(name)|)
                  < |DirectoryRoots(old(store.pages), NAME_SYSTABLE_OID).value|
                then Pin(Pin(old(store.pins), target.value), NAME_SYSTABLE_OID)
                else Pin(old(store.pins), target.value))
      ensures r.Err? ==> (cachedMapping == old(cachedMapping)
        && (LegacyNextOid(old(store.pages)).Err? || r.error in {IllegalArgument, AssertionFailed, CatalogFailure}))
    {
      var nextOid := NextTableOid();
      if nextOid.Err? {
        return Err(nextOid.error);
      }
      var pageId := PageForName(name);
      if pageId.Err? {
        return Err(pageId.error);
      }
      ghost var pins1 := store.pins;
      store.GetAndPin(pageId.value);
      var _ := store.PutRecord(pageId.value, LegacyNameRecord(name), -1);
      var closed := store.Close(pageId.value);
      UnpinPin(pins1, pageId.value);
      if closed.Err? {
        return Err(closed.error);
      }
      cachedMapping := cachedMapping[name := nextOid.value];
      r := Ok(nextOid.value);
    }
  }

  /** `DumbSystemCatalogImpl`: a page directory and the name mapping over one page cache. */
  class DumbSystemCatalog {
    const store: PageStore
    const directory: PageDirectory
    const mapping: TableOidMapping

    predicate Valid()
      reads this, directory, mapping
    {
      mapping.store == store && mapping.directory == directory && mapping.Valid()
    }

    constructor (store: PageStore)
      ensures this.store == store && Valid() && fresh(directory) && fresh(mapping)
      ensures directory.maxPageId == FIRST_DATA_PAGE && mapping.cachedMapping == map[]
    {
      this.store := store;
      var directory := new PageDirectory(store);
      this.directory := directory;
      mapping := new TableOidMapping(store, directory);
    }

    /**
     * `createFullScan(tableName)`, iterated to the end: the records of the table the name
     * resolves to, read over its own directory page. A name that resolves to no table is a
     * catalog error.
     */
    method CreateFullScan(name: Name) returns (r: Result<seq<seq<byte>>>)
      requires Valid()
      modifies mapping, store
      ensures Valid() && store.pages == old(store.pages)
      ensures old(Resolved(mapping.cachedMapping, store.pages, name)) == Ok(-1) ==> r == Err(CatalogFailure) || r == Err(IllegalArgument)
      ensures r.Ok? ==> (old(Resolved(mapping.cachedMapping, store.pages, name)).Ok? && old(Resolved(mapping.cachedMapping, store.pages, name)).value != -1
        && TableContents(store.pages, old(Resolved(mapping.cachedMapping, store.pages, name)).value) == r)
      ensures r.Err? ==> (old(Resolved(mapping.cachedMapping, store.pages, name)).Err? || old(Resolved(mapping.cachedMapping, store.pages, name)) == Ok(-1)
        || r.error == IllegalArgument || TableContents(store.pages, old(Resolved(mapping.cachedMapping, store.pages, name)).value).Err?
        || old(Resolved(mapping.cachedMapping, store.pages, name)).value < 0)
    {
      var oid := mapping.Get(name);
      if oid.Err? {
        return Err(oid.error);
      }
      if oid.value.None? {
        return Err(CatalogFailure);
      }
      r := ReadTable(store, oid.value.value, true);
    }

    /** `createTable(tableName)`: a name that resolves to a table is refused; otherwise `create`. */
    method CreateTable(name: Name) returns (r: Result<int>)
      requires Valid() && NameOk(name)
      modifies mapping, store, directory
      ensures Valid()
      ensures old(Resolved(mapping.cachedMapping, store.pages, name)).Ok? && old(Resolved(mapping.cachedMapping, store.pages, name)).value != -1 ==>
        r == Err(IllegalArgument) && store.pages == old(store.pages) && directory.maxPageId == old(directory.maxPageId)
      ensures r.Ok? ==> (old(Resolved(mapping.cachedMapping, store.pages, name)) == Ok(-1) && r == LegacyNextOid(old(store.pages))
        && mapping.cachedMapping == old(mapping.cachedMapping)[name := r.value]
        && DirectoryRoots(old(store.pages), NAME_SYSTABLE_OID).Ok?
        && store.pages == LegacyCreatedPages(old(store.pages), old(directory.maxPageId), name))
    {
      ghost var pages0, counter0, cache0 := store.pages, directory.maxPageId, mapping.cachedMapping;
      var existing := mapping.Get(name);
      if existing.Err? {
        return Err(existing.error);
      }
      if existing.value.Some? {
        return Err(IllegalArgument);
      }
      assert store.pages == pages0 && directory.maxPageId == counter0;
      assert mapping.cachedMapping == cache0[name := -1];
      r := mapping.Create(name);
      if r.Ok? {
        MemoOverwrite(cache0, name, -1, r.value);
      }
    }

    /** `addPage(tableOid)`: a new page for any oid, valid or not. */
    method AddPage(tableOid: int) returns (r: Result<int>)
      requires Valid() && IsInt32(tableOid)
      modifies directory, store
      ensures Valid() && directory.maxPageId == NextCounter(old(directory.maxPageId), -1)
      ensures store.pins == old(store.pins)
      ensures var put := Put(old(store.Slots(tableOid)), OidPageidBytes(tableOid, old(directory.maxPageId)), -1);
        store.pages == old(store.pages)[tableOid := put.slots]
        && r == if put.result.isOutOfSpace then Err(CatalogFailure)
          else if tableOid < 0 && tableOid !in old(store.pins) then Err(IllegalArgument)
          else Ok(old(directory.maxPageId))
    {
      r := directory.Add(tableOid, -1);
    }
  }
}
