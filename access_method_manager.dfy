/**
 * The second-generation `SimpleAccessMethodManager` of `SimpleAccessMethodManager.kt`, with the
 * page directory and the name mapping it is built from. The directory keeps one page per table,
 * page `oid`, listing the table's pages as `(oid, pageId)` records, and allocates page ids in
 * consecutive runs from a counter; the name mapping keeps `(oid, name)` records in the name
 * table, table 0, and memoises lookups by name, misses included. Its scans read pages with
 * `get`, so they hold no pins.
 */
module AccessMethodManagers {
  import opened Bytes
  import opened StorageApi
  import opened PageLayout
  import opened PageModel
  import opened PageStores
  import opened Scans
  import opened FullScans
  import opened NameTables
  import RootRecordScans
  import PageDirectories

  // ===========================================================================
  // The page directory
  // ===========================================================================

  /**
   * Records put in turn onto a page holding `slots`, each with `putRecord(bytes)`: the slots
   * afterwards, and whether every put fit. The first put that does not fit ends it.
   */
  function PutAll(slots: seq<Slot>, rows: seq<seq<byte>>): (seq<Slot>, bool)
    decreases |rows|
  {
    if rows == [] then (slots, true)
    else
      var put := Put(slots, rows[0], -1);
      if put.result.isOutOfSpace then (slots, false)
      else PutAll(put.slots, rows[1..])
  }

  /** The bytes of the directory records `(oid, i), ..., (oid, stop - 1)`. */
  function RangeRows(oid: int, i: int, stop: int): seq<seq<byte>>
    requires IsInt32(oid) && INT_MIN <= i && stop <= INT_MAX + 1
    decreases stop - i
  {
    if i >= stop then [] else [OidPageidBytes(oid, i)] + RangeRows(oid, i + 1, stop)
  }

  /** The end of the run of ids `add(oid, count)` hands out from `counter`: the new counter. */
  function AddStop(counter: int, count: int): (stop: int)
    requires IsInt32(counter) && IsInt32(count)
    ensures IsInt32(stop)
    ensures IsInt32(counter + count) ==> stop == counter + count
  {
    Wrap32(counter + count)
  }

  /**
   * The pages after `add(oid, count)` with the counter at `counter`: directory page `oid` with
   * the records of the ids `counter, ..., stop - 1` put onto it in turn, up to the first that
   * does not fit. With no id to hand out, the page is not touched.
   */
  function AddedPages(pages: map<int, seq<Slot>>, oid: int, counter: int, count: int): map<int, seq<Slot>>
    requires IsInt32(oid) && IsInt32(counter) && IsInt32(count)
  {
    var stop := AddStop(counter, count);
    if stop <= counter then pages
    else pages[oid := PutAll(PageOf(pages, oid), RangeRows(oid, counter, stop)).0]
  }

  /** Whether every record `add(oid, count)` puts fits on the directory page. */
  predicate AddFits(pages: map<int, seq<Slot>>, oid: int, counter: int, count: int)
    requires IsInt32(oid) && IsInt32(counter) && IsInt32(count)
  {
    PutAll(PageOf(pages, oid), RangeRows(oid, counter, AddStop(counter, count))).1
  }

  /** The directory records `(oid, i), ..., (oid, stop - 1)`. */
  function RangePairs(oid: int, i: int, stop: int): seq<OidPageid>
    decreases stop - i
  {
    if i >= stop then [] else [OidPageid(oid, i)] + RangePairs(oid, i + 1, stop)
  }

  /** A new record that fits is appended, live, after the page's live records. */
  lemma PutLive(slots: seq<Slot>, data: seq<byte>)
    requires !Put(slots, data, -1).result.isOutOfSpace
    ensures Live(Put(slots, data, -1).slots) == Live(slots) + [data]
  {
    assert Put(slots, data, -1).slots == slots + [Slot(false, data)];
    AppendPrefix(slots, [Slot(false, data)]);
  }

  /** When every put fits, the records put follow the page's live records, in order. */
  lemma {:induction false} PutAllLive(slots: seq<Slot>, rows: seq<seq<byte>>)
    requires PutAll(slots, rows).1
    ensures Live(PutAll(slots, rows).0) == Live(slots) + rows
    decreases |rows|
  {
    if rows != [] {
      var next := Put(slots, rows[0], -1).slots;
      PutLive(slots, rows[0]);
      PutAllLive(next, rows[1..]);
      AppendAssoc(Live(slots), [rows[0]], rows[1..]);
      SplitFirst(rows);
    } else {
      AppendPrefix(Live(slots), []);
    }
  }

  /** The records `add` puts parse as the directory records of the ids. */
  lemma {:induction false} ParseRangeRows(oid: int, i: int, stop: int)
    requires IsInt32(oid) && INT_MIN <= i && stop <= INT_MAX + 1
    ensures ParseAll(RangeRows(oid, i, stop)) == Ok(RangePairs(oid, i, stop))
    decreases stop - i
  {
    if i < stop {
      var data := OidPageidBytes(oid, i);
      ParseRangeRows(oid, i + 1, stop);
      ParseOidPageidBytes(oid, i, []);
      AppendPrefix(data, []);
      ParseAllOne(data);
      ParseAllAppend([data], RangeRows(oid, i + 1, stop));
    }
  }

  /** The pages of table `oid` listed by two runs of records, one after the other. */
  lemma {:induction false} TablePagesAppend(a: seq<OidPageid>, b: seq<OidPageid>, oid: int)
    ensures TablePages(a + b, oid) == TablePages(a, oid) + TablePages(b, oid)
    decreases |b|
  {
    if b == [] {
      AppendPrefix(a, b);
      AppendPrefix(TablePages(a, oid), []);
    } else {
      var front := b[..|b| - 1];
      var x := b[|b| - 1];
      SplitLast(a, b);
      TablePagesSnoc(a + front, x, oid);
      TablePagesSnoc(front, x, oid);
      TablePagesAppend(a, front, oid);
      AppendAssoc(TablePages(a, oid), TablePages(front, oid), if x.value1 == oid then [x.value2] else []);
    }
  }

  /** The ids from `start` on, with the first split off. */
  lemma BetweenCons(start: int, stop: int)
    requires start < stop
    ensures Between(start, stop) == [start] + Between(start + 1, stop)
  {
    var a := Between(start, stop);
    var b := [start] + Between(start + 1, stop);
    assert |a| == |b|;
    forall k | 0 <= k < |a|
      ensures a[k] == b[k]
    {
      if k > 0 {
        assert b[k] == Between(start + 1, stop)[k - 1];
      }
    }
  }

  /** The records `RangePairs(oid, i, stop)` list the pages `i, ..., stop - 1` of table `oid`. */
  lemma {:induction false} RangePairsPages(oid: int, i: int, stop: int)
    ensures TablePages(RangePairs(oid, i, stop), oid) == Between(i, stop)
    decreases stop - i
  {
    if i < stop {
      RangePairsPages(oid, i + 1, stop);
      TablePagesAppend([OidPageid(oid, i)], RangePairs(oid, i + 1, stop), oid);
      TablePagesSnoc([], OidPageid(oid, i), oid);
      AppendPrefix([OidPageid(oid, i)], []);
      BetweenCons(i, stop);
    }
  }

  /** Directory page `oid` alone holds what the directory lists for table `oid`. */
  lemma DirectoryRootsOfPage(pages: map<int, seq<Slot>>, oid: int)
    ensures DirectoryRoots(pages, oid) == ParseAll(Live(PageOf(pages, oid)))
  {
    var slots := PageOf(pages, oid);
    assert Range(pages, oid, oid + 1) == [slots];
    assert [slots][..0] == [];
    AppendPrefix(Live(slots), []);
    assert Rows([slots]) == Live(slots);
  }

  /**
   * The records `(oid, i), ..., (oid, stop - 1)` that `add` appends to the directory (see
   * `AddListsPages`) give table `oid` exactly the pages `i, ..., stop - 1`, after those it had.
   */
  lemma RangePagesAppended(roots: seq<OidPageid>, oid: int, i: int, stop: int)
    ensures TablePages(roots + RangePairs(oid, i, stop), oid) == TablePages(roots, oid) + Between(i, stop)
  {
    TablePagesAppend(roots, RangePairs(oid, i, stop), oid);
    RangePairsPages(oid, i, stop);
  }

  /**
   * `add(oid, count)` allocates consecutive pages: when none of its records overflows the
   * directory page and the counter does not wrap, the directory page lists the records
   * `(oid, counter), ..., (oid, counter + count - 1)` after the ones it had.
   */
  lemma AddListsPages(pages: map<int, seq<Slot>>, oid: int, counter: int, count: int)
    requires IsInt32(oid) && IsInt32(counter) && IsInt32(count) && IsInt32(counter + count)
    requires AddFits(pages, oid, counter, count) && DirectoryRoots(pages, oid).Ok?
    ensures DirectoryRoots(AddedPages(pages, oid, counter, count), oid)
      == Ok(DirectoryRoots(pages, oid).value + RangePairs(oid, counter, counter + count))
  {
    if counter + count <= counter {
      assert AddedPages(pages, oid, counter, count) == pages;
      assert RangePairs(oid, counter, counter + count) == [];
      AppendPrefix(DirectoryRoots(pages, oid).value, []);
    } else {
      AddListsRun(pages, oid, counter, counter + count, AddedPages(pages, oid, counter, count));
    }
  }

  /** `AddListsPages` when there are ids to hand out, with the pages after `add` given as `after`. */
  lemma AddListsRun(pages: map<int, seq<Slot>>, oid: int, counter: int, stop: int, after: map<int, seq<Slot>>)
    requires IsInt32(oid) && IsInt32(counter) && IsInt32(stop) && counter < stop
    requires PutAll(PageOf(pages, oid), RangeRows(oid, counter, stop)).1 && DirectoryRoots(pages, oid).Ok?
    requires after == pages[oid := PutAll(PageOf(pages, oid), RangeRows(oid, counter, stop)).0]
    ensures DirectoryRoots(after, oid) == Ok(DirectoryRoots(pages, oid).value + RangePairs(oid, counter, stop))
  {
    var slots := PageOf(pages, oid);
    DirectoryRootsOfPage(pages, oid);
    DirectoryRootsOfPage(after, oid);
    assert PageOf(after, oid) == PutAll(slots, RangeRows(oid, counter, stop)).0;
    AppendedLive(slots, oid, counter, stop);
  }

  /** The slots part of `AddListsPages`: the records put parse after those already there. */
  lemma AppendedLive(slots: seq<Slot>, oid: int, i: int, stop: int)
    requires IsInt32(oid) && INT_MIN <= i && stop <= INT_MAX + 1
    requires PutAll(slots, RangeRows(oid, i, stop)).1 && ParseAll(Live(slots)).Ok?
    ensures ParseAll(Live(PutAll(slots, RangeRows(oid, i, stop)).0)) == Ok(ParseAll(Live(slots)).value + RangePairs(oid, i, stop))
  {
    PutAllLive(slots, RangeRows(oid, i, stop));
    ParseRangeRows(oid, i, stop);
    ParseAllAppend(Live(slots), RangeRows(oid, i, stop));
  }

  /** A cleared directory page lists nothing: the table has no pages and a scan of it yields nothing. */
  lemma ClearedTableEmpty(pages: map<int, seq<Slot>>, oid: int)
    ensures DirectoryRoots(pages[oid := []], oid) == Ok([])
    ensures TableContents(pages[oid := []], oid) == Ok([])
  {
    var after := pages[oid := []];
    assert Range(after, oid, oid + 1) == [PageOf(after, oid)];
    assert Rows([[]]) == [];
    NoPagesNoRows(after, [], oid);
  }

  /**
   * Where the loop of `add` stands before putting the record for id `i`: the records for
   * `counter, ..., i - 1` are on directory page `oid`, nothing else has changed, and putting
   * the rest ends where putting them all from the start ends.
   */
  ghost predicate AddProgress(pages0: map<int, seq<Slot>>, oid: int, counter: int, count: int, i: int,
                              pages: map<int, seq<Slot>>)
  {
    IsInt32(oid) && IsInt32(counter) && IsInt32(count) && IsInt32(i) && counter <= i
    && (i == counter || counter < AddStop(counter, count))
    && pages == (if i == counter then pages0 else pages0[oid := PageOf(pages, oid)])
    && PutAll(PageOf(pages, oid), RangeRows(oid, i, AddStop(counter, count)))
      == PutAll(PageOf(pages0, oid), RangeRows(oid, counter, AddStop(counter, count)))
  }

  /** A record that fits moves the loop on by one id. */
  lemma AddLoopStep(pages0: map<int, seq<Slot>>, oid: int, counter: int, count: int, i: int,
                    pages: map<int, seq<Slot>>)
    requires AddProgress(pages0, oid, counter, count, i, pages) && i < AddStop(counter, count)
    requires !Put(PageOf(pages, oid), OidPageidBytes(oid, i), -1).result.isOutOfSpace
    ensures AddProgress(pages0, oid, counter, count, i + 1, pages[oid := Put(PageOf(pages, oid), OidPageidBytes(oid, i), -1).slots])
  {
    var stop := AddStop(counter, count);
    var rows := RangeRows(oid, i, stop);
    assert rows[0] == OidPageidBytes(oid, i) && rows[1..] == RangeRows(oid, i + 1, stop);
    var next := pages[oid := Put(PageOf(pages, oid), OidPageidBytes(oid, i), -1).slots];
    assert next == pages0[oid := PageOf(next, oid)];
  }

  /** The state `add` leaves when its loop has put every record: `AddedPages`. */
  lemma AddLoopDone(pages0: map<int, seq<Slot>>, oid: int, counter: int, count: int, i: int,
                    pages: map<int, seq<Slot>>)
    requires AddProgress(pages0, oid, counter, count, i, pages) && AddStop(counter, count) <= i
    ensures pages == AddedPages(pages0, oid, counter, count) && AddFits(pages0, oid, counter, count)
  {
    assert RangeRows(oid, i, AddStop(counter, count)) == [];
  }

  /** The state `add` leaves when the put of `(oid, i)` does not fit: `AddedPages`, and not `AddFits`. */
  lemma AddLoopFull(pages0: map<int, seq<Slot>>, oid: int, counter: int, count: int, i: int,
                    pages: map<int, seq<Slot>>)
    requires AddProgress(pages0, oid, counter, count, i, pages) && i < AddStop(counter, count)
    requires Put(PageOf(pages, oid), OidPageidBytes(oid, i), -1).result.isOutOfSpace
    ensures pages[oid := Put(PageOf(pages, oid), OidPageidBytes(oid, i), -1).slots] == AddedPages(pages0, oid, counter, count)
    ensures !AddFits(pages0, oid, counter, count)
  {
    PutFailureIsStable(PageOf(pages, oid), OidPageidBytes(oid, i), -1);
    assert RangeRows(oid, i, AddStop(counter, count))[0] == OidPageidBytes(oid, i);
  }

  /** `SimplePageDirectoryImpl` of `SimpleAccessMethodManager.kt`: the page-id counter and the directory pages. */
  class SimplePageDirectory {
    const store: PageStore
    var maxPageId: int

    /** The counter is a 32-bit `PageId`. */
    predicate Valid()
      reads this
    {
      IsInt32(maxPageId)
    }

    constructor (store: PageStore)
      ensures this.store == store && maxPageId == PageDirectories.FIRST_DATA_PAGE && Valid()
    {
      this.store := store;
      maxPageId := PageDirectories.FIRST_DATA_PAGE;
    }

    /** `pages(tableOid)`: the `(oid, pageId)` records of directory page `tableOid`, whatever their oid, read with a root-record iterator over that one page. */
    method Pages(tableOid: int) returns (r: Result<seq<OidPageid>>)
      modifies store
      ensures store.pages == old(store.pages)
      ensures r.Ok? ==> r == DirectoryRoots(store.pages, tableOid) && store.pins == old(store.pins)
      ensures r.Err? ==> DirectoryRoots(store.pages, tableOid).Err? || tableOid < 0
    {
      r := RootRecordScans.RootRecordsList(store, tableOid, 1);
    }

    /**
     * `add(tableOid, pageCount)`: the ids handed out are `maxPageId, ..., maxPageId +
     * pageCount - 1`, and the counter moves past them in 32-bit arithmetic before anything is
     * written. Their records are put in id order onto directory page `tableOid`, under a pin
     * released at the end; a full page fails with an access-method error, after the records
     * that fit; releasing the pin on a page without an id fails too.
     */
    method Add(tableOid: int, pageCount: int) returns (r: Result<int>)
      requires Valid() && IsInt32(tableOid) && IsInt32(pageCount)
      modifies this, store
      ensures Valid() && maxPageId == AddStop(old(maxPageId), pageCount)
      ensures store.pins == old(store.pins)
      ensures store.pages == AddedPages(old(store.pages), tableOid, old(maxPageId), pageCount)
      ensures r == if !AddFits(old(store.pages), tableOid, old(maxPageId), pageCount) then Err(AccessMethodFailure)
        else if tableOid < 0 && tableOid !in old(store.pins) then Err(IllegalArgument)
        else Ok(old(maxPageId))
    {
      var nextPageId := maxPageId;
      maxPageId := AddStop(maxPageId, pageCount);
      var stop := maxPageId;
      store.GetAndPin(tableOid);
      var i := nextPageId;
      while i < stop
        invariant maxPageId == stop && store.pins == Pin(old(store.pins), tableOid)
        invariant AddProgress(old(store.pages), tableOid, nextPageId, pageCount, i, store.pages)
        decreases stop - i
      {
        ghost var before := store.pages;
        var put := store.PutRecord(tableOid, OidPageidBytes(tableOid, i), -1);
        if put.isOutOfSpace {
          AddLoopFull(old(store.pages), tableOid, nextPageId, pageCount, i, before);
          var _ := store.Close(tableOid);
          UnpinPin(old(store.pins), tableOid);
          return Err(AccessMethodFailure);
        }
        AddLoopStep(old(store.pages), tableOid, nextPageId, pageCount, i, before);
        i := i + 1;
      }
      AddLoopDone(old(store.pages), tableOid, nextPageId, pageCount, i, store.pages);
      var closed := store.Close(tableOid);
      UnpinPin(old(store.pins), tableOid);
      if closed.Err? {
        return Err(closed.error);
      }
      r := Ok(nextPageId);
    }

    /** `delete(tableOid)`: directory page `tableOid` is cleared under a pin released at the end. */
    method Delete(tableOid: int) returns (r: Result<()>)
      modifies store
      ensures store.pages == old(store.pages)[tableOid := []] && store.pins == old(store.pins)
      ensures r == if tableOid < 0 && tableOid !in old(store.pins) then Err(IllegalArgument) else Ok(())
    {
      store.GetAndPin(tableOid);
      store.Clear(tableOid);
      r := store.Close(tableOid);
      UnpinPin(old(store.pins), tableOid);
    }
  }

  // ===========================================================================
  // The name mapping: searching and numbering
  // ===========================================================================

  /**
   * `isValid(oid)`: `firstOrNull { it.value1 == oid } != null` over the name records. The
   * search stops at the first record with the oid; a record that does not parse before it
   * fails the search.
   */
  function HasOid(rows: seq<seq<byte>>, oid: int): Result<bool>
    decreases |rows|
  {
    if rows == [] then Ok(false)
    else
      match ParseOidName(rows[0])
      case Err(e) => Err(e)
      case Ok(record) => if record.oid == oid then Ok(true) else HasOid(rows[1..], oid)
  }

  /** The records before `k` parse and none carries `oid`. */
  predicate NoneWithOid(rows: seq<seq<byte>>, oid: int, k: int) {
    forall j :: 0 <= j < k && j < |rows| ==> ParseOidName(rows[j]).Ok? && ParseOidName(rows[j]).value.oid != oid
  }

  /** Record `k` is the first that carries `oid`, and every record before it parses. */
  predicate FirstWithOid(rows: seq<seq<byte>>, oid: int, k: int) {
    0 <= k < |rows| && NoneWithOid(rows, oid, k) && ParseOidName(rows[k]).Ok? && ParseOidName(rows[k]).value.oid == oid
  }

  /** A record that carries the oid, with every record before it parsing, makes the search answer yes. */
  lemma {:induction false} HasOidFirst(rows: seq<seq<byte>>, oid: int, k: int)
    requires FirstWithOid(rows, oid, k)
    ensures HasOid(rows, oid) == Ok(true)
    decreases k
  {
    if k > 0 {
      assert ParseOidName(rows[0]).Ok? && ParseOidName(rows[0]).value.oid != oid;
      var tail := rows[1..];
      assert forall j :: 0 <= j < |tail| ==> tail[j] == rows[j + 1];
      HasOidFirst(tail, oid, k - 1);
    }
  }

  /** The search answers yes only for a record that carries the oid with every record before it parsing. */
  lemma {:induction false} HasOidFound(rows: seq<seq<byte>>, oid: int)
    requires HasOid(rows, oid) == Ok(true)
    ensures exists k :: FirstWithOid(rows, oid, k)
    decreases |rows|
  {
    if ParseOidName(rows[0]).value.oid == oid {
      assert FirstWithOid(rows, oid, 0);
    } else {
      var tail := rows[1..];
      assert forall j :: 0 <= j < |tail| ==> tail[j] == rows[j + 1];
      HasOidFound(tail, oid);
      var k :| FirstWithOid(tail, oid, k);
      assert FirstWithOid(rows, oid, k + 1);
    }
  }

  /** The search answers no exactly when every record parses and none carries the oid. */
  lemma {:induction false} HasOidNone(rows: seq<seq<byte>>, oid: int)
    ensures HasOid(rows, oid) == Ok(false) <==> NoneWithOid(rows, oid, |rows|)
    decreases |rows|
  {
    if rows != [] {
      var tail := rows[1..];
      assert forall j :: 0 <= j < |tail| ==> tail[j] == rows[j + 1];
      HasOidNone(tail, oid);
      var head := ParseOidName(rows[0]);
      if head.Ok? && head.value.oid != oid {
        assert NoneWithOid(rows, oid, |rows|) <==> NoneWithOid(tail, oid, |tail|);
      }
    }
  }

  /** `firstOrNull` over the scanned name records, with the searching loop the iteration runs. */
  method SearchOid(rows: seq<seq<byte>>, oid: int) returns (r: Result<bool>)
    ensures r == HasOid(rows, oid)
  {
    var i := 0;
    while i < |rows|
      invariant 0 <= i <= |rows| && HasOid(rows[i..], oid) == HasOid(rows, oid)
      decreases |rows| - i
    {
      assert rows[i..][1..] == rows[i + 1..];
      var record := ParseOidName(rows[i]);
      if record.Err? {
        return Err(record.error);
      }
      if record.value.oid == oid {
        return Ok(true);
      }
      i := i + 1;
    }
    r := Ok(false);
  }

  /** `isValid(oid)` on the pages `pages`: whether the name table holds a record with the oid. */
  function Known(pages: map<int, seq<Slot>>, oid: int): Result<bool> {
    match TableContents(pages, NAME_SYSTABLE_OID)
    case Err(e) => Err(e)
    case Ok(rows) => HasOid(rows, oid)
  }

  /** `nextTableOid()` on the scanned name records: one more than the largest of 0 and their oids, in 32-bit arithmetic. */
  function NextOidOf(rows: seq<seq<byte>>): (r: Result<int>)
    ensures r.Ok? ==> IsInt32(r.value)
  {
    match MaxOid(rows, NAME_SYSTABLE_OID)
    case Err(e) => Err(e)
    case Ok(m) => Ok(Wrap32(m + 1))
  }

  /** `nextTableOid()` on the pages `pages`. */
  function NextOid(pages: map<int, seq<Slot>>): (r: Result<int>)
    ensures r.Ok? ==> IsInt32(r.value)
  {
    match TableContents(pages, NAME_SYSTABLE_OID)
    case Err(e) => Err(e)
    case Ok(rows) => NextOidOf(rows)
  }

  /** The new oid can be computed exactly when every name record parses. */
  lemma NextOidParses(rows: seq<seq<byte>>)
    ensures NextOidOf(rows).Ok? <==> forall k :: 0 <= k < |rows| ==> ParseOidName(rows[k]).Ok?
  {
    MaxOidBounds(rows, NAME_SYSTABLE_OID);
  }

  /**
   * The new oid is fresh: it is positive and larger than every oid in the name records, unless
   * they hold `Int.MAX_VALUE`, past which it wraps around to `Int.MIN_VALUE`.
   */
  lemma NextOidExceeds(rows: seq<seq<byte>>, next: int)
    requires NextOidOf(rows) == Ok(next)
    ensures IsInt32(next)
    ensures next != INT_MIN ==>
      next >= 1 && forall k :: 0 <= k < |rows| ==> ParseOidName(rows[k]).Ok? && ParseOidName(rows[k]).value.oid < next
    ensures next == INT_MIN ==> exists k :: 0 <= k < |rows| && ParseOidName(rows[k]).Ok? && ParseOidName(rows[k]).value.oid == INT_MAX
  {
    MaxOidBounds(rows, NAME_SYSTABLE_OID);
    MaxOidAttained(rows, NAME_SYSTABLE_OID);
    var m := MaxOid(rows, NAME_SYSTABLE_OID).value;
    assert IsInt32(m);
    if m == INT_MAX {
      assert m != NAME_SYSTABLE_OID;
    } else {
      assert next == m + 1;
    }
  }

  // ===========================================================================
  // The name mapping: placing a new name record
  // ===========================================================================

  /** What trying the name-table pages leaves: the pages, and the page that took the record, none, or the failure. */
  datatype Attempt = Attempt(pages: map<int, seq<Slot>>, outcome: Result<Option<int>>)

  /** Releasing the pin just taken on page `p` throws: the page has no id (a negative one) and no other pin. */
  predicate Unreleasable(pins: map<int, Count>, p: int) {
    p < 0 && p !in pins
  }

  /**
   * The `firstOrNull` of `create` over the directory records `roots` of the name table: each
   * page they name is pinned with `getAndPin` while `putRecord(bytes)` is tried on it, and the
   * first page on which the put is ok takes the record. Releasing the pin on a page without an
   * id throws, after the put.
   */
  function TryPages(pages: map<int, seq<Slot>>, pins: map<int, Count>, roots: seq<OidPageid>, bytes: seq<byte>): Attempt
    decreases |roots|
  {
    if roots == [] then Attempt(pages, Ok(None))
    else
      var p := roots[0].value2;
      var put := Put(PageOf(pages, p), bytes, -1);
      var after := pages[p := put.slots];
      if Unreleasable(pins, p) then Attempt(after, Err(IllegalArgument))
      else if put.result.IsOk() then Attempt(after, Ok(Some(p)))
      else TryPages(after, pins, roots[1..], bytes)
  }

  /**
   * Whether the `firstOrNull` of `create` stops on a directory record before the last one:
   * the put on its page is ok there, or releasing that page throws. The root-record iterator
   * it abandons then still holds its pin on directory page 0.
   */
  predicate StopsBeforeLast(pages: map<int, seq<Slot>>, pins: map<int, Count>, roots: seq<OidPageid>, bytes: seq<byte>)
    decreases |roots|
  {
    if roots == [] then false
    else
      var p := roots[0].value2;
      var put := Put(PageOf(pages, p), bytes, -1);
      if Unreleasable(pins, p) || put.result.IsOk() then |roots| > 1
      else StopsBeforeLast(pages[p := put.slots], pins, roots[1..], bytes)
  }

  /** The two page maps show the same slots on every page. */
  ghost predicate SameSlots(a: map<int, seq<Slot>>, b: map<int, seq<Slot>>) {
    forall q :: PageOf(a, q) == PageOf(b, q)
  }

  /** None of the pages `roots[..k]` name takes the record: each can be released and has no room for it. */
  predicate NoRoom(pages: map<int, seq<Slot>>, pins: map<int, Count>, roots: seq<OidPageid>, bytes: seq<byte>, k: int) {
    forall j :: 0 <= j < k && j < |roots| ==>
      !Unreleasable(pins, roots[j].value2) && !Put(PageOf(pages, roots[j].value2), bytes, -1).result.IsOk()
  }

  /** `roots[k]` names the first page that takes the record. */
  predicate FirstRoom(pages: map<int, seq<Slot>>, pins: map<int, Count>, roots: seq<OidPageid>, bytes: seq<byte>, k: int) {
    0 <= k < |roots| && NoRoom(pages, pins, roots, bytes, k)
    && !Unreleasable(pins, roots[k].value2) && Put(PageOf(pages, roots[k].value2), bytes, -1).result.IsOk()
  }

  /** Writing the same slots to one page of two maps that show the same slots keeps them so. */
  lemma SameSlotsUpdate(a: map<int, seq<Slot>>, b: map<int, seq<Slot>>, p: int, slots: seq<Slot>)
    requires SameSlots(a, b)
    ensures SameSlots(a[p := slots], b[p := slots])
  {
    var a1 := a[p := slots];
    var b1 := b[p := slots];
    forall q ensures PageOf(a1, q) == PageOf(b1, q) {
      assert PageOf(a, q) == PageOf(b, q);
    }
  }

  /** Trying the pages depends on the slots they show, not on how the page map holds them. */
  lemma {:induction false} TryPagesSame(a: map<int, seq<Slot>>, b: map<int, seq<Slot>>, pins: map<int, Count>,
                                        roots: seq<OidPageid>, bytes: seq<byte>)
    requires SameSlots(a, b)
    ensures TryPages(a, pins, roots, bytes).outcome == TryPages(b, pins, roots, bytes).outcome
    ensures SameSlots(TryPages(a, pins, roots, bytes).pages, TryPages(b, pins, roots, bytes).pages)
    decreases |roots|
  {
    if roots != [] {
      var p := roots[0].value2;
      assert PageOf(a, p) == PageOf(b, p);
      var slots := Put(PageOf(a, p), bytes, -1).slots;
      SameSlotsUpdate(a, b, p, slots);
      TryPagesSame(a[p := slots], b[p := slots], pins, roots[1..], bytes);
    }
  }

  /** A put that does not fit leaves the page map showing the slots it showed. */
  lemma FailedPutSame(pages: map<int, seq<Slot>>, p: int, bytes: seq<byte>)
    requires !Put(PageOf(pages, p), bytes, -1).result.IsOk()
    ensures SameSlots(pages[p := Put(PageOf(pages, p), bytes, -1).slots], pages)
  {
    PutFailureIsStable(PageOf(pages, p), bytes, -1);
  }

  /** Trying pages that all have ids never throws. */
  lemma {:induction false} TryPagesReleases(pages: map<int, seq<Slot>>, pins: map<int, Count>, roots: seq<OidPageid>, bytes: seq<byte>)
    requires forall k :: 0 <= k < |roots| ==> roots[k].value2 >= 0
    ensures TryPages(pages, pins, roots, bytes).outcome.Ok?
    decreases |roots|
  {
    if roots != [] {
      var p := roots[0].value2;
      var tail := roots[1..];
      assert forall j :: 0 <= j < |tail| ==> tail[j] == roots[j + 1];
      TryPagesReleases(pages[p := Put(PageOf(pages, p), bytes, -1).slots], pins, tail, bytes);
    }
  }

  /**
   * First fit: when `roots[k]` names the first page with room, that page takes the record, and
   * it is the only page that changes.
   */
  lemma {:induction false} TryPagesFirst(pages: map<int, seq<Slot>>, pins: map<int, Count>, roots: seq<OidPageid>,
                                         bytes: seq<byte>, k: int)
    requires FirstRoom(pages, pins, roots, bytes, k)
    ensures TryPages(pages, pins, roots, bytes).outcome == Ok(Some(roots[k].value2))
    ensures SameSlots(TryPages(pages, pins, roots, bytes).pages,
                      pages[roots[k].value2 := Put(PageOf(pages, roots[k].value2), bytes, -1).slots])
    decreases k
  {
    if k > 0 {
      var p := roots[0].value2;
      assert !Unreleasable(pins, p) && !Put(PageOf(pages, p), bytes, -1).result.IsOk();
      var after := pages[p := Put(PageOf(pages, p), bytes, -1).slots];
      FailedPutSame(pages, p, bytes);
      var tail := roots[1..];
      assert forall j :: 0 <= j < |tail| ==> tail[j] == roots[j + 1];
      assert FirstRoom(pages, pins, tail, bytes, k - 1);
      TryPagesFirst(pages, pins, tail, bytes, k - 1);
      TryPagesSame(after, pages, pins, tail, bytes);
    }
  }

  /** The page that takes the record is the first listed page with room. */
  lemma {:induction false} TryPagesFound(pages: map<int, seq<Slot>>, pins: map<int, Count>, roots: seq<OidPageid>, bytes: seq<byte>)
    requires TryPages(pages, pins, roots, bytes).outcome.Ok? && TryPages(pages, pins, roots, bytes).outcome.value.Some?
    ensures exists k :: FirstRoom(pages, pins, roots, bytes, k) && roots[k].value2 == TryPages(pages, pins, roots, bytes).outcome.value.value
    decreases |roots|
  {
    var p := roots[0].value2;
    if Put(PageOf(pages, p), bytes, -1).result.IsOk() {
      assert FirstRoom(pages, pins, roots, bytes, 0);
    } else {
      var after := pages[p := Put(PageOf(pages, p), bytes, -1).slots];
      FailedPutSame(pages, p, bytes);
      var tail := roots[1..];
      TryPagesSame(after, pages, pins, tail, bytes);
      TryPagesFound(pages, pins, tail, bytes);
      var k :| FirstRoom(pages, pins, tail, bytes, k) && tail[k].value2 == TryPages(pages, pins, tail, bytes).outcome.value.value;
      assert forall j :: 0 <= j < |tail| ==> tail[j] == roots[j + 1];
      assert FirstRoom(pages, pins, roots, bytes, k + 1);
    }
  }

  /** No listed page takes the record exactly when the first does not and none of the others does. */
  lemma NoRoomCons(pages: map<int, seq<Slot>>, pins: map<int, Count>, roots: seq<OidPageid>, bytes: seq<byte>)
    requires roots != []
    ensures NoRoom(pages, pins, roots, bytes, |roots|) <==>
      !Unreleasable(pins, roots[0].value2) && !Put(PageOf(pages, roots[0].value2), bytes, -1).result.IsOk()
      && NoRoom(pages, pins, roots[1..], bytes, |roots| - 1)
  {
    var tail := roots[1..];
    assert forall j :: 0 <= j < |tail| ==> tail[j] == roots[j + 1];
  }

  /**
   * No page takes the record exactly when every listed page can be released and has no room
   * for it; the pages then show what they showed.
   */
  lemma {:induction false} TryPagesNone(pages: map<int, seq<Slot>>, pins: map<int, Count>, roots: seq<OidPageid>, bytes: seq<byte>)
    ensures TryPages(pages, pins, roots, bytes).outcome == Ok(None) <==> NoRoom(pages, pins, roots, bytes, |roots|)
    ensures TryPages(pages, pins, roots, bytes).outcome == Ok(None) ==> SameSlots(TryPages(pages, pins, roots, bytes).pages, pages)
    decreases |roots|
  {
    if roots != [] {
      var p := roots[0].value2;
      if !Unreleasable(pins, p) && !Put(PageOf(pages, p), bytes, -1).result.IsOk() {
        var after := pages[p := Put(PageOf(pages, p), bytes, -1).slots];
        FailedPutSame(pages, p, bytes);
        var tail := roots[1..];
        TryPagesSame(after, pages, pins, tail, bytes);
        TryPagesNone(pages, pins, tail, bytes);
      }
      NoRoomCons(pages, pins, roots, bytes);
    }
  }

  /**
   * The pages after `create` when the name records are readable: the record goes to the first
   * name-table page that takes it; when none does, `add(NAME_SYSTABLE_OID)` lists the page at
   * the counter for the name table and the record is put onto that page, its result not looked at.
   */
  function CreatedPages(pages: map<int, seq<Slot>>, pins: map<int, Count>, counter: int, bytes: seq<byte>): map<int, seq<Slot>>
    requires IsInt32(counter) && DirectoryRoots(pages, NAME_SYSTABLE_OID).Ok?
  {
    var a := TryPages(pages, pins, DirectoryRoots(pages, NAME_SYSTABLE_OID).value, bytes);
    if a.outcome != Ok(None) then a.pages
    else
      var added := AddedPages(a.pages, NAME_SYSTABLE_OID, counter, 1);
      added[counter := Put(PageOf(added, counter), bytes, -1).slots]
  }

  /** Pages that show the same slots hold the same directory records and the same tables. */
  lemma SameContents(a: map<int, seq<Slot>>, b: map<int, seq<Slot>>, oid: int)
    requires SameSlots(a, b)
    ensures DirectoryRoots(a, oid) == DirectoryRoots(b, oid) && TableContents(a, oid) == TableContents(b, oid)
  {
    assert Range(a, oid, oid + 1) == [PageOf(a, oid)];
    assert Range(b, oid, oid + 1) == [PageOf(b, oid)];
    assert PageOf(a, oid) == PageOf(b, oid);
    if DirectoryRoots(b, oid).Ok? {
      var ids := TablePages(DirectoryRoots(b, oid).value, oid);
      assert PagesAt(a, ids) == PagesAt(b, ids) by {
        forall i | 0 <= i < |ids| ensures PagesAt(a, ids)[i] == PagesAt(b, ids)[i] {
          assert PageOf(a, ids[i]) == PageOf(b, ids[i]);
        }
      }
    }
  }

  /** When each page of `qs` is that of `ps` or it with `bytes` added live at the end, each record of `qs` is one of `ps` or `bytes`. */
  lemma {:induction false} RowsGrow(ps: seq<seq<Slot>>, qs: seq<seq<Slot>>, bytes: seq<byte>)
    requires |ps| == |qs|
    requires forall i :: 0 <= i < |qs| ==> qs[i] == ps[i] || Live(qs[i]) == Live(ps[i]) + [bytes]
    ensures forall x :: x in Rows(qs) ==> x in Rows(ps) || x == bytes
    decreases |qs|
  {
    if qs != [] {
      var n := |qs| - 1;
      RowsGrow(ps[..n], qs[..n], bytes);
      assert Rows(qs) == Rows(qs[..n]) + Live(qs[n]);
      assert Rows(ps) == Rows(ps[..n]) + Live(ps[n]);
    }
  }

  /** After a record is appended to page `p`, each record of pages `ids` is one they held before, or the new one. */
  lemma RowsAfterPut(pages: map<int, seq<Slot>>, ids: seq<int>, p: int, slots: seq<Slot>, bytes: seq<byte>)
    requires Live(slots) == Live(PageOf(pages, p)) + [bytes]
    ensures forall x :: x in Rows(PagesAt(pages[p := slots], ids)) ==> x in Rows(PagesAt(pages, ids)) || x == bytes
  {
    var after := pages[p := slots];
    var ps := PagesAt(pages, ids);
    var qs := PagesAt(after, ids);
    forall i | 0 <= i < |qs| ensures qs[i] == ps[i] || Live(qs[i]) == Live(ps[i]) + [bytes] {
      if ids[i] == p {
        assert qs[i] == slots && ps[i] == PageOf(pages, p);
      } else {
        assert qs[i] == PageOf(pages, ids[i]);
      }
    }
    RowsGrow(ps, qs, bytes);
  }

  /**
   * When no record of `before` has the name and the only record `after` adds is `bytes`, the
   * oid `bytes` carries is the one found for the name.
   */
  lemma {:induction false} FirstOfNewName(before: seq<seq<byte>>, after: seq<seq<byte>>, bytes: seq<byte>, name: Name, oid: int)
    requires NoneNamed(before, name, |before|)
    requires forall x :: x in after ==> x in before || x == bytes
    requires bytes in after && ParseOidName(bytes) == Ok(OidName(oid, name))
    ensures FindName(after, name) == Ok(Some(oid))
    decreases |after|
  {
    if after[0] != bytes {
      assert after[0] in after;
      var j :| 0 <= j < |before| && before[j] == after[0];
      assert ParseOidName(before[j]).Ok? && ParseOidName(before[j]).value.name != name;
      var tail := after[1..];
      assert after == [after[0]] + tail;
      assert bytes in tail;
      FirstOfNewName(before, tail, bytes, name, oid);
    }
  }

  /**
   * A name record appended to a page of the name table, other than its directory page, is what
   * a lookup of the name finds, when no record had the name before.
   */
  lemma RecordPlacedFound(pages: map<int, seq<Slot>>, p: int, bytes: seq<byte>, name: Name, oid: int)
    requires p != NAME_SYSTABLE_OID && DirectoryRoots(pages, NAME_SYSTABLE_OID).Ok?
    requires p in TablePages(DirectoryRoots(pages, NAME_SYSTABLE_OID).value, NAME_SYSTABLE_OID)
    requires Put(PageOf(pages, p), bytes, -1).result.IsOk() && ParseOidName(bytes) == Ok(OidName(oid, name))
    requires FindName(TableContents(pages, NAME_SYSTABLE_OID).value, name) == Ok(None)
    ensures Lookup(pages[p := Put(PageOf(pages, p), bytes, -1).slots], name) == Ok(oid)
  {
    var slots := Put(PageOf(pages, p), bytes, -1).slots;
    var after := pages[p := slots];
    PutLive(PageOf(pages, p), bytes);
    assert Range(after, 0, 1) == [PageOf(after, 0)] && Range(pages, 0, 1) == [PageOf(pages, 0)];
    assert DirectoryRoots(after, 0) == DirectoryRoots(pages, 0);
    var ids := TablePages(DirectoryRoots(pages, 0).value, 0);
    RowsAfterPut(pages, ids, p, slots, bytes);
    assert bytes in Live(slots);
    RowsOfPagesHas(after, ids, p, bytes);
    FindNameNone(TableContents(pages, 0).value, name);
    FirstOfNewName(TableContents(pages, 0).value, TableContents(after, 0).value, bytes, name, oid);
  }

  /** Every record on the name table's directory page is one of the name table's, naming a page past page 0. */
  predicate NameRootsOk(roots: seq<OidPageid>) {
    forall k :: 0 <= k < |roots| ==> roots[k].value1 == NAME_SYSTABLE_OID && roots[k].value2 > 0
  }

  /** The name record `create` writes for `(oid, name)` reads back as such. */
  lemma NameRecordParses(oid: int, name: Name)
    requires IsInt32(oid) && NameOk(name)
    ensures ParseOidName(OidNameBytes(oid, name)) == Ok(OidName(oid, name))
  {
    ParseOidNameBytes(oid, name, []);
    AppendPrefix(OidNameBytes(oid, name), []);
  }

  /** The page that takes the record is listed, has room for it, and is the only page that changes. */
  lemma TryPagesPlaced(pages: map<int, seq<Slot>>, pins: map<int, Count>, roots: seq<OidPageid>, bytes: seq<byte>, p: int)
    requires TryPages(pages, pins, roots, bytes).outcome == Ok(Some(p))
    ensures exists k :: 0 <= k < |roots| && roots[k].value2 == p
    ensures Put(PageOf(pages, p), bytes, -1).result.IsOk()
    ensures SameSlots(TryPages(pages, pins, roots, bytes).pages, pages[p := Put(PageOf(pages, p), bytes, -1).slots])
  {
    TryPagesFound(pages, pins, roots, bytes);
    var k :| FirstRoom(pages, pins, roots, bytes, k) && roots[k].value2 == p;
    TryPagesFirst(pages, pins, roots, bytes, k);
  }

  /** `CreatedRecordFound` when a listed page takes the record. */
  lemma CreatedOnListedPage(pages: map<int, seq<Slot>>, roots: seq<OidPageid>, bytes: seq<byte>, oid: int, name: Name,
                            p: int, after: map<int, seq<Slot>>)
    requires DirectoryRoots(pages, NAME_SYSTABLE_OID) == Ok(roots) && NameRootsOk(roots)
    requires FindName(TableContents(pages, NAME_SYSTABLE_OID).value, name) == Ok(None)
    requires ParseOidName(bytes) == Ok(OidName(oid, name))
    requires exists k :: 0 <= k < |roots| && roots[k].value2 == p
    requires Put(PageOf(pages, p), bytes, -1).result.IsOk()
    requires SameSlots(after, pages[p := Put(PageOf(pages, p), bytes, -1).slots])
    ensures Lookup(after, name) == Ok(oid)
  {
    var k :| 0 <= k < |roots| && roots[k].value2 == p;
    assert roots[k] == OidPageid(NAME_SYSTABLE_OID, p);
    TablePagesMembers(roots, NAME_SYSTABLE_OID);
    RecordPlacedFound(pages, p, bytes, name, oid);
    LookupSame(after, pages[p := Put(PageOf(pages, p), bytes, -1).slots], name);
  }

  /** Lookups depend on the slots the pages show, not on how the page map holds them. */
  lemma LookupSame(a: map<int, seq<Slot>>, b: map<int, seq<Slot>>, name: Name)
    requires SameSlots(a, b)
    ensures Lookup(a, name) == Lookup(b, name)
  {
    SameContents(a, b, NAME_SYSTABLE_OID);
  }

  /** `add(NAME_SYSTABLE_OID)` with room on the directory page lists the page at the counter for the name table. */
  lemma AddedNameDirectory(tried: map<int, seq<Slot>>, pages: map<int, seq<Slot>>, counter: int, roots: seq<OidPageid>,
                           added: map<int, seq<Slot>>)
    requires IsInt32(counter) && IsInt32(counter + 1) && SameSlots(tried, pages)
    requires DirectoryRoots(pages, NAME_SYSTABLE_OID) == Ok(roots) && AddFits(pages, NAME_SYSTABLE_OID, counter, 1)
    requires added == AddedPages(tried, NAME_SYSTABLE_OID, counter, 1)
    ensures DirectoryRoots(added, NAME_SYSTABLE_OID) == Ok(roots + [OidPageid(NAME_SYSTABLE_OID, counter)])
    ensures forall q :: q != NAME_SYSTABLE_OID ==> PageOf(added, q) == PageOf(pages, q)
  {
    SameContents(tried, pages, NAME_SYSTABLE_OID);
    assert PageOf(tried, NAME_SYSTABLE_OID) == PageOf(pages, NAME_SYSTABLE_OID);
    AddListsPages(tried, NAME_SYSTABLE_OID, counter, 1);
    assert RangePairs(NAME_SYSTABLE_OID, counter, counter + 1) == [OidPageid(NAME_SYSTABLE_OID, counter)];
    forall q | q != NAME_SYSTABLE_OID ensures PageOf(added, q) == PageOf(pages, q) {
      assert PageOf(tried, q) == PageOf(pages, q);
    }
  }

  /** Listing an empty page for the name table, with no other page but the directory page changed, adds no record to it. */
  lemma AddedNameRows(pages: map<int, seq<Slot>>, added: map<int, seq<Slot>>, counter: int, roots: seq<OidPageid>)
    requires DirectoryRoots(pages, NAME_SYSTABLE_OID) == Ok(roots) && NameRootsOk(roots)
    requires DirectoryRoots(added, NAME_SYSTABLE_OID) == Ok(roots + [OidPageid(NAME_SYSTABLE_OID, counter)])
    requires forall q :: q != NAME_SYSTABLE_OID ==> PageOf(added, q) == PageOf(pages, q)
    requires counter != NAME_SYSTABLE_OID && PageOf(pages, counter) == []
    ensures TableContents(added, NAME_SYSTABLE_OID) == TableContents(pages, NAME_SYSTABLE_OID)
    ensures counter in TablePages(roots + [OidPageid(NAME_SYSTABLE_OID, counter)], NAME_SYSTABLE_OID)
  {
    var ids := TablePages(roots, NAME_SYSTABLE_OID);
    TablePagesSnoc(roots, OidPageid(NAME_SYSTABLE_OID, counter), NAME_SYSTABLE_OID);
    TablePagesMembers(roots, NAME_SYSTABLE_OID);
    assert PagesAt(added, ids) == PagesAt(pages, ids) by {
      forall i | 0 <= i < |ids| ensures PagesAt(added, ids)[i] == PagesAt(pages, ids)[i] {
        assert OidPageid(NAME_SYSTABLE_OID, ids[i]) in roots;
      }
    }
    PagesAtSnoc(added, ids, counter);
    RowsSnoc(PagesAt(added, ids), []);
    AppendPrefix(Rows(PagesAt(pages, ids)), []);
  }

  /** `CreatedRecordFound` when no listed page takes the record and the directory adds the page at the counter. */
  lemma CreatedOnAddedPage(pages: map<int, seq<Slot>>, roots: seq<OidPageid>, counter: int, bytes: seq<byte>, oid: int, name: Name,
                           tried: map<int, seq<Slot>>, added: map<int, seq<Slot>>)
    requires IsInt32(counter) && IsInt32(counter + 1) && counter > 0
    requires DirectoryRoots(pages, NAME_SYSTABLE_OID) == Ok(roots) && NameRootsOk(roots)
    requires FindName(TableContents(pages, NAME_SYSTABLE_OID).value, name) == Ok(None)
    requires AddFits(pages, NAME_SYSTABLE_OID, counter, 1) && PageOf(pages, counter) == []
    requires Put([], bytes, -1).result.IsOk() && ParseOidName(bytes) == Ok(OidName(oid, name))
    requires SameSlots(tried, pages) && added == AddedPages(tried, NAME_SYSTABLE_OID, counter, 1)
    ensures Lookup(added[counter := Put(PageOf(added, counter), bytes, -1).slots], name) == Ok(oid)
  {
    AddedNameDirectory(tried, pages, counter, roots, added);
    AddedNameRows(pages, added, counter, roots);
    RecordPlacedFound(added, counter, bytes, name, oid);
  }

  /**
   * Create, then look up: when the name is not in the name table, every record on its
   * directory page lists one of its pages past page 0, and, for the fallback, the directory page
   * has room for one more record and the page at the counter is empty, a lookup of the name in
   * the pages `create` leaves finds the oid it wrote.
   */
  lemma CreatedRecordFound(pages: map<int, seq<Slot>>, pins: map<int, Count>, counter: int, oid: int, name: Name)
    requires IsInt32(counter) && IsInt32(counter + 1) && counter > 0 && IsInt32(oid) && NameOk(name)
    requires DirectoryRoots(pages, NAME_SYSTABLE_OID).Ok? && NameRootsOk(DirectoryRoots(pages, NAME_SYSTABLE_OID).value)
    requires FindName(TableContents(pages, NAME_SYSTABLE_OID).value, name) == Ok(None)
    requires AddFits(pages, NAME_SYSTABLE_OID, counter, 1) && PageOf(pages, counter) == []
    requires Put([], OidNameBytes(oid, name), -1).result.IsOk()
    ensures Lookup(CreatedPages(pages, pins, counter, OidNameBytes(oid, name)), name) == Ok(oid)
  {
    var roots := DirectoryRoots(pages, NAME_SYSTABLE_OID).value;
    var bytes := OidNameBytes(oid, name);
    var a := TryPages(pages, pins, roots, bytes);
    NameRecordParses(oid, name);
    TryPagesReleases(pages, pins, roots, bytes);
    if a.outcome == Ok(None) {
      TryPagesNone(pages, pins, roots, bytes);
      CreatedOnAddedPage(pages, roots, counter, bytes, oid, name, a.pages, AddedPages(a.pages, NAME_SYSTABLE_OID, counter, 1));
    } else {
      TryPagesPlaced(pages, pins, roots, bytes, a.outcome.value.value);
      CreatedOnListedPage(pages, roots, bytes, oid, name, a.outcome.value.value, a.pages);
    }
  }

  // ===========================================================================
  // The name mapping: deleting a name
  // ===========================================================================

  /**
   * `allRecords().entries.find { ... }` on a name-table page, from slot `i` on: the first live
   * record whose name is `name`. A live record that does not parse throws before it.
   */
  function NamedSlot(slots: seq<Slot>, name: Name, i: nat): Result<Option<int>>
    decreases |slots| - i
  {
    if i >= |slots| then Ok(None)
    else if slots[i].deleted then NamedSlot(slots, name, i + 1)
    else
      match ParseOidName(slots[i].data)
      case Err(e) => Err(e)
      case Ok(record) => if record.name == name then Ok(Some(i)) else NamedSlot(slots, name, i + 1)
  }

  /** The live records of slots `i, ..., k - 1` parse and none has the name. */
  predicate NoneLiveNamed(slots: seq<Slot>, name: Name, i: int, k: int) {
    forall j :: i <= j < k && 0 <= j < |slots| && !slots[j].deleted ==>
      ParseOidName(slots[j].data).Ok? && ParseOidName(slots[j].data).value.name != name
  }

  /**
   * The search finds slot `k` only when it is the first live record from `i` on with the name,
   * every live record before it parsing.
   */
  lemma {:induction false} NamedSlotFound(slots: seq<Slot>, name: Name, i: nat)
    ensures NamedSlot(slots, name, i).Ok? && NamedSlot(slots, name, i).value.Some? ==>
      var k := NamedSlot(slots, name, i).value.value;
      i <= k < |slots| && !slots[k].deleted && ParseOidName(slots[k].data).Ok?
      && ParseOidName(slots[k].data).value.name == name && NoneLiveNamed(slots, name, i, k)
    decreases |slots| - i
  {
    if i < |slots| {
      NamedSlotFound(slots, name, i + 1);
    }
  }

  /** The search finds nothing exactly when every live record from `i` on parses and none has the name. */
  lemma {:induction false} NamedSlotNone(slots: seq<Slot>, name: Name, i: nat)
    ensures NamedSlot(slots, name, i) == Ok(None) <==> NoneLiveNamed(slots, name, i, |slots|)
    decreases |slots| - i
  {
    if i < |slots| {
      NamedSlotNone(slots, name, i + 1);
    }
  }

  /** The `find` over the entries of `allRecords()`, with the searching loop it runs. */
  method FindNamedSlot(slots: seq<Slot>, name: Name) returns (r: Result<Option<int>>)
    ensures r == NamedSlot(slots, name, 0)
  {
    var i := 0;
    while i < |slots|
      invariant 0 <= i <= |slots| && NamedSlot(slots, name, i) == NamedSlot(slots, name, 0)
      decreases |slots| - i
    {
      if !slots[i].deleted {
        var record := ParseOidName(slots[i].data);
        if record.Err? {
          return Err(record.error);
        }
        if record.value.name == name {
          return Ok(Some(i));
        }
      }
      i := i + 1;
    }
    r := Ok(None);
  }

  /**
   * The `forEach` of `delete(tableName)` over the pages `ids` of the name table: on each, the
   * first live record with the name, if any, becomes a tombstone. A record that does not parse
   * stops the sweep with its failure.
   */
  function SweepNamed(pages: map<int, seq<Slot>>, ids: seq<int>, name: Name): Result<map<int, seq<Slot>>>
    decreases |ids|
  {
    if ids == [] then Ok(pages)
    else
      match NamedSlot(PageOf(pages, ids[0]), name, 0)
      case Err(e) => Err(e)
      case Ok(None) => SweepNamed(pages, ids[1..], name)
      case Ok(Some(k)) => SweepNamed(pages[ids[0] := Delete(PageOf(pages, ids[0]), k)], ids[1..], name)
  }

  /** The pages of the name table its directory page lists. */
  function NameTablePages(pages: map<int, seq<Slot>>): seq<int>
    requires DirectoryRoots(pages, NAME_SYSTABLE_OID).Ok?
  {
    TablePages(DirectoryRoots(pages, NAME_SYSTABLE_OID).value, NAME_SYSTABLE_OID)
  }

  /** A page of the sweep whose search fails fails the sweep. */
  lemma SweepFails(pages: map<int, seq<Slot>>, ids: seq<int>, i: int, name: Name)
    requires 0 <= i < |ids| && NamedSlot(PageOf(pages, ids[i]), name, 0).Err?
    ensures SweepNamed(pages, ids[i..], name).Err?
  {
    assert ids[i..][0] == ids[i];
  }

  /** One page of the sweep: its first live record with the name, if any, becomes a tombstone. */
  lemma SweepStep(pages: map<int, seq<Slot>>, ids: seq<int>, i: int, name: Name, found: Option<int>)
    requires 0 <= i < |ids| && NamedSlot(PageOf(pages, ids[i]), name, 0) == Ok(found)
    ensures SweepNamed(pages, ids[i..], name)
      == SweepNamed(if found.Some? then pages[ids[i] := Delete(PageOf(pages, ids[i]), found.value)] else pages, ids[i + 1..], name)
  {
    assert ids[i..][0] == ids[i] && ids[i..][1..] == ids[i + 1..];
  }

  /** `b` is `a` with some more of its records turned into tombstones. */
  predicate Tombstoned(a: seq<Slot>, b: seq<Slot>) {
    |a| == |b| && forall j :: 0 <= j < |a| ==> a[j].data == b[j].data && (a[j].deleted ==> b[j].deleted)
  }

  /**
   * The sweep only turns records into tombstones: every page keeps its slots and their bytes,
   * no record comes back to life (so an empty page stays empty), and a page it does not visit
   * is unchanged.
   */
  lemma {:induction false} SweepOnlyTombstones(pages: map<int, seq<Slot>>, ids: seq<int>, name: Name, q: int)
    requires SweepNamed(pages, ids, name).Ok?
    ensures Tombstoned(PageOf(pages, q), PageOf(SweepNamed(pages, ids, name).value, q))
    ensures q !in ids ==> PageOf(SweepNamed(pages, ids, name).value, q) == PageOf(pages, q)
    decreases |ids|
  {
    if ids != [] {
      var p := ids[0];
      var found := NamedSlot(PageOf(pages, p), name, 0);
      var next := if found.value.Some? then pages[p := Delete(PageOf(pages, p), found.value.value)] else pages;
      assert ids == [p] + ids[1..];
      SweepOnlyTombstones(next, ids[1..], name, q);
      DeleteFacts(PageOf(pages, p), if found.value.Some? then found.value.value else -1);
    }
  }

  // ===========================================================================
  // The name mapping
  // ===========================================================================

  /**
   * Whether `create` fails once its oid is chosen: releasing a page it tried fails, or no
   * listed page takes the record and then either the directory page of the name table
   * overflows or the added page cannot be released.
   */
  predicate CreateFails(pages: map<int, seq<Slot>>, pins: map<int, Count>, counter: int, bytes: seq<byte>)
    requires IsInt32(counter) && DirectoryRoots(pages, NAME_SYSTABLE_OID).Ok?
  {
    var a := TryPages(pages, pins, DirectoryRoots(pages, NAME_SYSTABLE_OID).value, bytes);
    a.outcome.Err? || (a.outcome == Ok(None) && (!AddFits(a.pages, NAME_SYSTABLE_OID, counter, 1) || Unreleasable(pins, counter)))
  }

  /**
   * Whether `create` leaves directory page 0 pinned: its search of the listed name-table pages
   * stops before the last directory record.
   */
  predicate CreateHoldsRoot(pages: map<int, seq<Slot>>, pins: map<int, Count>, bytes: seq<byte>)
    requires DirectoryRoots(pages, NAME_SYSTABLE_OID).Ok?
  {
    StopsBeforeLast(pages, pins, DirectoryRoots(pages, NAME_SYSTABLE_OID).value, bytes)
  }

  /** Whether `create` adds a page to the name table: no page it lists takes the record. */
  predicate CreateAdds(pages: map<int, seq<Slot>>, pins: map<int, Count>, bytes: seq<byte>)
    requires DirectoryRoots(pages, NAME_SYSTABLE_OID).Ok?
  {
    TryPages(pages, pins, DirectoryRoots(pages, NAME_SYSTABLE_OID).value, bytes).outcome == Ok(None)
  }

  /** `TableOidMapping` of `SimpleAccessMethodManager.kt`: the name table read through the page directory. */
  class TableOidMapping {
    const store: PageStore
    const directory: SimplePageDirectory
    /** `cachedMapping`: every name looked up or created, `-1` for a name that was missing. */
    var cachedMapping: map<Name, int>

    predicate Valid()
      reads this, directory
    {
      directory.store == store && directory.Valid()
    }

    constructor (store: PageStore, directory: SimplePageDirectory)
      requires directory.store == store && directory.Valid()
      ensures this.store == store && this.directory == directory && cachedMapping == map[] && Valid()
    {
      this.store := store;
      this.directory := directory;
      cachedMapping := map[];
    }

    /**
     * `get(tableName)`: the memoised oid, or else the oid of the first name record with the
     * name, `-1` when there is none, which is then memoised; `-1` reads as no table. The scan
     * reads pages without pinning them and fails only on records that do not parse.
     */
    method Get(name: Name) returns (r: Result<Option<int>>)
      requires Valid()
      modifies this, store
      ensures Valid() && store.pages == old(store.pages)
      ensures name in old(cachedMapping) ==> r.Ok? && cachedMapping == old(cachedMapping)
      ensures r.Ok? ==> (Resolved(old(cachedMapping), old(store.pages), name).Ok? && r.value == Present(Resolved(old(cachedMapping), old(store.pages), name).value)
        && cachedMapping == old(cachedMapping)[name := Resolved(old(cachedMapping), old(store.pages), name).value] && store.pins == old(store.pins))
      ensures r.Err? ==> cachedMapping == old(cachedMapping) && Resolved(old(cachedMapping), old(store.pages), name).Err?
    {
      if name in cachedMapping {
        assert cachedMapping == cachedMapping[name := cachedMapping[name]];
        return Ok(Present(cachedMapping[name]));
      }
      var rows := ReadTable(store, NAME_SYSTABLE_OID, false);
      if rows.Err? {
        return Err(rows.error);
      }
      var found := SearchName(rows.value, name);
      if found.Err? {
        return Err(found.error);
      }
      var oid := if found.value.Some? then found.value.value else -1;
      cachedMapping := cachedMapping[name := oid];
      r := Ok(Present(oid));
    }

    /** `isValid(oid)`: whether some name record holds the oid, searched up to the first that does. */
    method IsValid(oid: int) returns (r: Result<bool>)
      modifies store
      ensures store.pages == old(store.pages)
      ensures r.Ok? ==> r == Known(store.pages, oid) && store.pins == old(store.pins)
      ensures r.Err? ==> Known(store.pages, oid).Err?
    {
      var rows := ReadTable(store, NAME_SYSTABLE_OID, false);
      if rows.Err? {
        return Err(rows.error);
      }
      r := SearchOid(rows.value, oid);
    }

    /** `nextTableOid()`: one past the largest stored oid and 0, with the `forEach` over a scan of the name table. */
    method NextTableOid() returns (r: Result<int>)
      modifies store
      ensures store.pages == old(store.pages)
      ensures r.Ok? ==> r == NextOid(store.pages) && store.pins == old(store.pins)
      ensures r.Err? ==> NextOid(store.pages).Err?
    {
      var rows := ReadTable(store, NAME_SYSTABLE_OID, false);
      if rows.Err? {
        return Err(rows.error);
      }
      var maxOid := FoldMaxOid(rows.value, NAME_SYSTABLE_OID);
      if maxOid.Err? {
        return Err(maxOid.error);
      }
      r := Ok(Wrap32(maxOid.value + 1));
    }

    /**
     * The `firstOrNull` of `create` over the directory records of the name table: each listed
     * page is pinned, offered the record and released, up to the first that takes it. The
     * root-record iterator behind `pages(NAME_SYSTABLE_OID)` pins directory page 0 in its
     * `init` and releases it only once `next()` has handed out the page's last record, so the
     * pin stays when the search stops before that record.
     */
    method PutFirstFit(roots: seq<OidPageid>, bytes: seq<byte>) returns (r: Result<Option<int>>)
      modifies store
      ensures Attempt(store.pages, r) == TryPages(old(store.pages), old(store.pins), roots, bytes)
      ensures store.pins == if StopsBeforeLast(old(store.pages), old(store.pins), roots, bytes)
        then Pin(old(store.pins), NAME_SYSTABLE_OID) else old(store.pins)
    {
      store.GetAndPin(NAME_SYSTABLE_OID);
      if |roots| == 0 {
        var released := store.Close(NAME_SYSTABLE_OID);
        UnpinPin(old(store.pins), NAME_SYSTABLE_OID);
        assert released.Ok?;
      }
      var i := 0;
      while i < |roots|
        invariant 0 <= i <= |roots|
        invariant store.pins == if i < |roots| then Pin(old(store.pins), NAME_SYSTABLE_OID) else old(store.pins)
        invariant TryPages(store.pages, old(store.pins), roots[i..], bytes) == TryPages(old(store.pages), old(store.pins), roots, bytes)
        invariant StopsBeforeLast(store.pages, old(store.pins), roots[i..], bytes)
          == StopsBeforeLast(old(store.pages), old(store.pins), roots, bytes)
        decreases |roots| - i
      {
        assert roots[i..][0] == roots[i] && roots[i..][1..] == roots[i + 1..];
        if i == |roots| - 1 {
          var released := store.Close(NAME_SYSTABLE_OID);
          UnpinPin(old(store.pins), NAME_SYSTABLE_OID);
          assert released.Ok?;
        }
        var p := roots[i].value2;
        ghost var pins0 := store.pins;
        store.GetAndPin(p);
        var put := store.PutRecord(p, bytes, -1);
        var closed := store.Close(p);
        UnpinPin(pins0, p);
        if closed.Err? {
          return Err(closed.error);
        }
        if put.IsOk() {
          return Ok(Some(p));
        }
        i := i + 1;
      }
      r := Ok(None);
    }

    /**
     * `create(tableName)`: the oid is `nextTableOid()`; its record goes to the first page of
     * the name table that takes it, or else to a page the directory adds for the name table,
     * whose put result is not looked at. The name is then memoised with the new oid.
     */
    method Create(name: Name) returns (r: Result<int>)
      requires Valid() && NameOk(name)
      modifies this, store, directory
      ensures Valid()
      ensures NextOid(old(store.pages)).Err? ==> r.Err?
      ensures NextOid(old(store.pages)).Ok? ==> (DirectoryRoots(old(store.pages), NAME_SYSTABLE_OID).Ok?
        && (r.Ok? <==> !CreateFails(old(store.pages), old(store.pins), old(directory.maxPageId),
          OidNameBytes(NextOid(old(store.pages)).value, name))))
      ensures r.Ok? ==> (r == NextOid(old(store.pages)) && cachedMapping == old(cachedMapping)[name := r.value]
        && store.pins == (if CreateHoldsRoot(old(store.pages), old(store.pins), OidNameBytes(r.value, name))
          then Pin(old(store.pins), NAME_SYSTABLE_OID) else old(store.pins))
        && store.pages == CreatedPages(old(store.pages), old(store.pins), old(directory.maxPageId), OidNameBytes(r.value, name))
        && directory.maxPageId == if CreateAdds(old(store.pages), old(store.pins), OidNameBytes(r.value, name))
          then AddStop(old(directory.maxPageId), 1) else old(directory.maxPageId))
      ensures r.Err? ==> cachedMapping == old(cachedMapping)
    {
      var nextOid := NextTableOid();
      if nextOid.Err? {
        return Err(nextOid.error);
      }
      var bytes := OidNameBytes(nextOid.value, name);
      var roots := directory.Pages(NAME_SYSTABLE_OID);
      assert roots.Ok?;
      var tried := PutFirstFit(roots.value, bytes);
      if tried.Err? {
        return Err(tried.error);
      }
      if tried.value.None? {
        var added := directory.Add(NAME_SYSTABLE_OID, 1);
        if added.Err? {
          return Err(added.error);
        }
        ghost var pins1 := store.pins;
        store.GetAndPin(added.value);
        var _ := store.PutRecord(added.value, bytes, -1);
        var closed := store.Close(added.value);
        UnpinPin(pins1, added.value);
        if closed.Err? {
          return Err(closed.error);
        }
      }
      cachedMapping := cachedMapping[name := nextOid.value];
      r := Ok(nextOid.value);
    }

    /**
     * `delete(tableName)`: on every page of the name table the first live record with the name
     * becomes a tombstone; then the name is forgotten. A record that does not parse stops it.
     */
    method Delete(name: Name) returns (r: Result<()>)
      requires Valid()
      modifies this, store
      ensures Valid()
      ensures r.Ok? ==> (DirectoryRoots(old(store.pages), NAME_SYSTABLE_OID).Ok?
        && SweepNamed(old(store.pages), NameTablePages(old(store.pages)), name) == Ok(store.pages)
        && store.pins == old(store.pins) && cachedMapping == old(cachedMapping) - {name})
      ensures r.Err? ==> cachedMapping == old(cachedMapping)
      ensures r.Err? && DirectoryRoots(old(store.pages), NAME_SYSTABLE_OID).Ok? ==>
        SweepNamed(old(store.pages), NameTablePages(old(store.pages)), name).Err?
    {
      var roots := directory.Pages(NAME_SYSTABLE_OID);
      if roots.Err? {
        return Err(roots.error);
      }
      var ids := TablePages(roots.value, NAME_SYSTABLE_OID);
      assert ids[0..] == ids;
      var i := 0;
      while i < |ids|
        invariant 0 <= i <= |ids| && store.pins == old(store.pins) && cachedMapping == old(cachedMapping)
        invariant SweepNamed(store.pages, ids[i..], name) == SweepNamed(old(store.pages), ids, name)
        decreases |ids| - i
      {
        ghost var before := store.pages;
        var found := FindNamedSlot(store.Slots(ids[i]), name);
        if found.Err? {
          SweepFails(before, ids, i, name);
          return Err(found.error);
        }
        if found.value.Some? {
          store.DeleteRecord(ids[i], found.value.value);
        }
        SweepStep(before, ids, i, name, found.value);
        i := i + 1;
      }
      assert ids[i..] == [];
      cachedMapping := cachedMapping - {name};
      r := Ok(());
    }
  }

  // ===========================================================================
  // The manager
  // ===========================================================================

  /** There is one record per id from `i` up to `stop`. */
  lemma {:induction false} RangePairsLength(oid: int, i: int, stop: int)
    ensures |RangePairs(oid, i, stop)| == if stop <= i then 0 else stop - i
    decreases stop - i
  {
    if i < stop {
      RangePairsLength(oid, i + 1, stop);
    }
  }

  /** `SimpleAccessMethodManager`: the page directory and the name mapping over one page cache. */
  class SimpleAccessMethodManager {
    const store: PageStore
    const directory: SimplePageDirectory
    const mapping: TableOidMapping

    predicate Valid()
      reads this, directory, mapping
    {
      mapping.store == store && mapping.directory == directory && mapping.Valid()
    }

    constructor (store: PageStore)
      ensures this.store == store && Valid() && fresh(directory) && fresh(mapping)
      ensures directory.maxPageId == PageDirectories.FIRST_DATA_PAGE && mapping.cachedMapping == map[]
    {
      this.store := store;
      var directory := new SimplePageDirectory(store);
      this.directory := directory;
      mapping := new TableOidMapping(store, directory);
    }

    /**
     * `createFullScan(tableName, parser)`, iterated to the end: the records of the table the
     * name resolves to, read over its own directory page. A name that resolves to no table is
     * an access-method error.
     */
    method CreateFullScan(name: Name) returns (r: Result<seq<seq<byte>>>)
      requires Valid()
      modifies mapping, store
      ensures Valid() && store.pages == old(store.pages)
      ensures old(Resolved(mapping.cachedMapping, store.pages, name)).Err? ==> r.Err?
      ensures old(Resolved(mapping.cachedMapping, store.pages, name)) == Ok(-1) ==> r == Err(AccessMethodFailure)
      ensures r.Ok? ==> (old(Resolved(mapping.cachedMapping, store.pages, name)).Ok? && old(Resolved(mapping.cachedMapping, store.pages, name)).value != -1
        && TableContents(store.pages, old(Resolved(mapping.cachedMapping, store.pages, name)).value) == r)
      ensures var found := old(Resolved(mapping.cachedMapping, store.pages, name));
        found.Ok? && found.value >= 0 && TableContents(store.pages, found.value).Ok? ==> r.Ok?
    {
      var oid := mapping.Get(name);
      if oid.Err? {
        return Err(oid.error);
      }
      if oid.value.None? {
        return Err(AccessMethodFailure);
      }
      r := ReadTable(store, oid.value.value, false);
    }

    /** `createTable(tableName)`: a name that resolves to a table is refused; otherwise `create`. */
    method CreateTable(name: Name) returns (r: Result<int>)
      requires Valid() && NameOk(name)
      modifies mapping, store, directory
      ensures Valid()
      ensures old(Resolved(mapping.cachedMapping, store.pages, name)).Err? ==> r.Err?
      ensures old(Resolved(mapping.cachedMapping, store.pages, name)).Ok? && old(Resolved(mapping.cachedMapping, store.pages, name)).value != -1 ==>
        (r == Err(IllegalArgument) && store.pages == old(store.pages) && directory.maxPageId == old(directory.maxPageId))
      ensures old(Resolved(mapping.cachedMapping, store.pages, name)) == Ok(-1) && NextOid(old(store.pages)).Ok? ==>
        (DirectoryRoots(old(store.pages), NAME_SYSTABLE_OID).Ok?
        && (r.Ok? <==> !CreateFails(old(store.pages), old(store.pins), old(directory.maxPageId),
          OidNameBytes(NextOid(old(store.pages)).value, name))))
      ensures r.Ok? ==> (old(Resolved(mapping.cachedMapping, store.pages, name)) == Ok(-1) && r == NextOid(old(store.pages))
        && mapping.cachedMapping == old(mapping.cachedMapping)[name := r.value]
        && DirectoryRoots(old(store.pages), NAME_SYSTABLE_OID).Ok?
        && store.pins == (if CreateHoldsRoot(old(store.pages), old(store.pins), OidNameBytes(r.value, name))
          then Pin(old(store.pins), NAME_SYSTABLE_OID) else old(store.pins))
        && store.pages == CreatedPages(old(store.pages), old(store.pins), old(directory.maxPageId), OidNameBytes(r.value, name)))
    {
      ghost var cache0 := mapping.cachedMapping;
      var existing := mapping.Get(name);
      if existing.Err? {
        return Err(existing.error);
      }
      if existing.value.Some? {
        return Err(IllegalArgument);
      }
      assert mapping.cachedMapping == cache0[name := -1];
      r := mapping.Create(name);
      if r.Ok? {
        MemoOverwrite(cache0, name, -1, r.value);
      }
    }

    /**
     * `addPage(tableOid, pageCount)`: `add` on the directory for an oid some name record
     * holds; any other oid is an access-method error and changes nothing.
     */
    method AddPage(tableOid: int, pageCount: int) returns (r: Result<int>)
      requires Valid() && IsInt32(tableOid) && IsInt32(pageCount)
      modifies directory, store
      ensures Valid()
      ensures Known(old(store.pages), tableOid).Err? ==>
        (r.Err? && directory.maxPageId == old(directory.maxPageId) && store.pages == old(store.pages))
      ensures Known(old(store.pages), tableOid) == Ok(false) ==>
        (r == Err(AccessMethodFailure) && directory.maxPageId == old(directory.maxPageId) && store.pages == old(store.pages)
        && store.pins == old(store.pins))
      ensures Known(old(store.pages), tableOid) == Ok(true) ==>
        (directory.maxPageId == AddStop(old(directory.maxPageId), pageCount) && store.pins == old(store.pins)
        && store.pages == AddedPages(old(store.pages), tableOid, old(directory.maxPageId), pageCount)
        && r == if !AddFits(old(store.pages), tableOid, old(directory.maxPageId), pageCount) then Err(AccessMethodFailure)
          else if tableOid < 0 && tableOid !in old(store.pins) then Err(IllegalArgument)
          else Ok(old(directory.maxPageId)))
    {
      var valid := mapping.IsValid(tableOid);
      if valid.Err? {
        return Err(valid.error);
      }
      if !valid.value {
        return Err(AccessMethodFailure);
      }
      r := directory.Add(tableOid, pageCount);
    }

    /** `pageCount(tableName)`: how many records the directory page of the table holds. */
    method PageCount(name: Name) returns (r: Result<int>)
      requires Valid()
      modifies mapping, store
      ensures Valid() && store.pages == old(store.pages)
      ensures old(Resolved(mapping.cachedMapping, store.pages, name)).Err? ==> r.Err?
      ensures old(Resolved(mapping.cachedMapping, store.pages, name)) == Ok(-1) ==> r == Err(AccessMethodFailure)
      ensures r.Ok? ==> (old(Resolved(mapping.cachedMapping, store.pages, name)).Ok? && old(Resolved(mapping.cachedMapping, store.pages, name)).value != -1
        && DirectoryRoots(store.pages, old(Resolved(mapping.cachedMapping, store.pages, name)).value).Ok?
        && r.value == |DirectoryRoots(store.pages, old(Resolved(mapping.cachedMapping, store.pages, name)).value).value|)
      ensures var found := old(Resolved(mapping.cachedMapping, store.pages, name));
        found.Ok? && found.value >= 0 && DirectoryRoots(store.pages, found.value).Ok? ==> r.Ok?
    {
      var oid := mapping.Get(name);
      if oid.Err? {
        return Err(oid.error);
      }
      if oid.value.None? {
        return Err(AccessMethodFailure);
      }
      var roots := directory.Pages(oid.value.value);
      if roots.Err? {
        return Err(roots.error);
      }
      r := Ok(|roots.value|);
    }

    /** `tableExists(tableName)`: whether the name resolves to a table. */
    method TableExists(name: Name) returns (r: Result<bool>)
      requires Valid()
      modifies mapping, store
      ensures Valid() && store.pages == old(store.pages)
      ensures r.Ok? <==> old(Resolved(mapping.cachedMapping, store.pages, name)).Ok?
      ensures r.Ok? ==> r.value == (old(Resolved(mapping.cachedMapping, store.pages, name)).value != -1)
    {
      var oid := mapping.Get(name);
      if oid.Err? {
        return Err(oid.error);
      }
      r := Ok(oid.value.Some?);
    }

    /**
     * `deleteTable(tableName)`: nothing for a name that resolves to no table; otherwise the
     * table's directory page is cleared, then its name records are swept from the name table
     * and the name is forgotten. The table's own pages keep their records.
     */
    method DeleteTable(name: Name) returns (r: Result<()>)
      requires Valid()
      modifies mapping, store
      ensures Valid()
      ensures old(Resolved(mapping.cachedMapping, store.pages, name)).Err? ==> r.Err?
      ensures old(Resolved(mapping.cachedMapping, store.pages, name)) == Ok(-1) ==> r == Ok(()) && store.pages == old(store.pages)
      ensures r.Ok? && old(Resolved(mapping.cachedMapping, store.pages, name)).Ok? && old(Resolved(mapping.cachedMapping, store.pages, name)).value != -1 ==>
        (var cleared := old(store.pages)[old(Resolved(mapping.cachedMapping, store.pages, name)).value := []];
        DirectoryRoots(cleared, NAME_SYSTABLE_OID).Ok?
        && SweepNamed(cleared, NameTablePages(cleared), name) == Ok(store.pages)
        && store.pins == old(store.pins) && mapping.cachedMapping == old(mapping.cachedMapping) - {name})
    {
      ghost var cache0 := mapping.cachedMapping;
      var oid := mapping.Get(name);
      if oid.Err? {
        return Err(oid.error);
      }
      if oid.value.None? {
        return Ok(());
      }
      r := directory.Delete(oid.value.value);
      if r.Err? {
        return;
      }
      r := mapping.Delete(name);
      if r.Ok? {
        ForgetMemo(cache0, name, oid.value.value);
      }
    }
  }
}
