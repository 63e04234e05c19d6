/**
 * `FullScanIteratorImpl`, which both generations of `AccessMethods.kt` define: a scan of a
 * table that walks the `(oid, pageId)` records of a page directory, visits the pages whose
 * record names the table, and yields the bytes of their live records, page by page and in slot
 * order. The first generation pins each page it visits with `getAndPin` and closes it before
 * moving on; the second reads its pages with `get` and holds no pins. `seekFirstPage` walks
 * the same directory looking for the first table page a predicate accepts.
 *
 * The directory records are the list the directory's root-record iterator yields; the scan
 * consumes that list one record at a time.
 */
module FullScans {
  import opened Bytes
  import opened StorageApi
  import opened PageLayout
  import opened PageModel
  import opened PageStores
  import opened Scans
  import RootRecordScans

  /** The live records of the pages of table `oid` that the directory records `roots` name, in directory order and then slot order. */
  function TableRows(pages: map<int, seq<Slot>>, roots: seq<OidPageid>, oid: int): seq<seq<byte>> {
    Rows(PagesAt(pages, TablePages(roots, oid)))
  }

  /** One page id more appends its slots. */
  lemma PagesAtSnoc(pages: map<int, seq<Slot>>, ids: seq<int>, id: int)
    ensures PagesAt(pages, ids + [id]) == PagesAt(pages, ids) + [PageOf(pages, id)]
  {
  }

  /** One directory record more adds the live records of its page when it names the table, and nothing otherwise. */
  lemma TableRowsSnoc(pages: map<int, seq<Slot>>, roots: seq<OidPageid>, oid: int, n: int)
    requires 0 <= n < |roots|
    ensures TableRows(pages, roots[..n + 1], oid)
      == TableRows(pages, roots[..n], oid) + if roots[n].value1 == oid then Live(PageOf(pages, roots[n].value2)) else []
  {
    assert roots[..n + 1] == roots[..n] + [roots[n]];
    TablePagesSnoc(roots[..n], roots[n], oid);
    if roots[n].value1 == oid {
      PagesAtSnoc(pages, TablePages(roots[..n], oid), roots[n].value2);
      RowsSnoc(PagesAt(pages, TablePages(roots[..n], oid)), PageOf(pages, roots[n].value2));
    } else {
      var ids := TablePages(roots[..n], oid);
      assert ids + [] == ids;
      var rows := TableRows(pages, roots[..n], oid);
      assert rows + [] == rows;
    }
  }

  /** No directory record of positions `n, ..., m - 1` names the table. */
  predicate Skipped(roots: seq<OidPageid>, oid: int, n: int, m: int) {
    forall k :: n <= k < m && 0 <= k < |roots| ==> roots[k].value1 != oid
  }

  /** Directory records of other tables add no rows. */
  lemma {:induction false} SkippedRows(pages: map<int, seq<Slot>>, roots: seq<OidPageid>, oid: int, n: int, m: int)
    requires 0 <= n <= m <= |roots| && Skipped(roots, oid, n, m)
    ensures TableRows(pages, roots[..m], oid) == TableRows(pages, roots[..n], oid)
    decreases m - n
  {
    if n < m {
      SkippedRows(pages, roots, oid, n, m - 1);
      TableRowsSnoc(pages, roots, oid, m - 1);
    }
  }

  /** The rows of the first `n` directory records come first among those of the first `m`. */
  lemma {:induction false} TableRowsPrefix(pages: map<int, seq<Slot>>, roots: seq<OidPageid>, oid: int, n: int, m: int)
    requires 0 <= n <= m <= |roots|
    ensures TableRows(pages, roots[..n], oid) <= TableRows(pages, roots[..m], oid)
    decreases m - n
  {
    if n < m {
      TableRowsPrefix(pages, roots, oid, n, m - 1);
      TableRowsSnoc(pages, roots, oid, m - 1);
      var front := TableRows(pages, roots[..m - 1], oid);
      var more := if roots[m - 1].value1 == oid then Live(PageOf(pages, roots[m - 1].value2)) else [];
      PrefixExtend(TableRows(pages, roots[..n], oid), front, more);
    }
  }

  /** Every directory record read: the rows of the whole table. */
  lemma TableRowsAll(pages: map<int, seq<Slot>>, roots: seq<OidPageid>, oid: int)
    ensures TableRows(pages, roots[..|roots|], oid) == TableRows(pages, roots, oid)
  {
    assert roots[..|roots|] == roots;
  }

  /** The first page from directory position `n` on that belongs to table `oid` and whose slots `accept` takes, if any. */
  function FirstAccepted(pages: map<int, seq<Slot>>, roots: seq<OidPageid>, oid: int, n: nat, accept: seq<Slot> -> bool)
    : Option<int>
    decreases |roots| - n
  {
    if n >= |roots| then None
    else if roots[n].value1 == oid && accept(PageOf(pages, roots[n].value2)) then Some(roots[n].value2)
    else FirstAccepted(pages, roots, oid, n + 1, accept)
  }

  /**
   * What is found is a record of the table from position `n` on whose page the predicate takes,
   * and no earlier record of the table from `n` names such a page; nothing is found only when no
   * page of the table from `n` on is taken.
   */
  lemma {:induction false} FirstAcceptedIsFirst(pages: map<int, seq<Slot>>, roots: seq<OidPageid>, oid: int, n: nat,
                                               accept: seq<Slot> -> bool)
    ensures var r := FirstAccepted(pages, roots, oid, n, accept);
      r.None? ==> forall k :: n <= k < |roots| && roots[k].value1 == oid ==> !accept(PageOf(pages, roots[k].value2))
    ensures var r := FirstAccepted(pages, roots, oid, n, accept);
      r.Some? ==>
        exists k :: n <= k < |roots| && roots[k] == OidPageid(oid, r.value) && accept(PageOf(pages, r.value))
          && forall j :: n <= j < k && roots[j].value1 == oid ==> !accept(PageOf(pages, roots[j].value2))
    decreases |roots| - n
  {
    if n < |roots| && !(roots[n].value1 == oid && accept(PageOf(pages, roots[n].value2))) {
      FirstAcceptedIsFirst(pages, roots, oid, n + 1, accept);
      var r := FirstAccepted(pages, roots, oid, n, accept);
      if r.Some? {
        var k :| n + 1 <= k < |roots| && roots[k] == OidPageid(oid, r.value) && accept(PageOf(pages, r.value))
          && forall j :: n + 1 <= j < k && roots[j].value1 == oid ==> !accept(PageOf(pages, roots[j].value2));
        assert n <= k;
      }
    }
  }

  /** Records of other tables do not change what is found. */
  lemma {:induction false} FirstAcceptedSkipped(pages: map<int, seq<Slot>>, roots: seq<OidPageid>, oid: int, n: nat, m: nat,
                                               accept: seq<Slot> -> bool)
    requires n <= m <= |roots| && Skipped(roots, oid, n, m)
    ensures FirstAccepted(pages, roots, oid, n, accept) == FirstAccepted(pages, roots, oid, m, accept)
    decreases m - n
  {
    if n < m {
      FirstAcceptedSkipped(pages, roots, oid, n + 1, m, accept);
    }
  }

  /**
   * How many directory records a search from position `n` has taken once it stops: one past
   * the record that names the page it finds, every record when it finds none.
   */
  function AcceptedEnd(pages: map<int, seq<Slot>>, roots: seq<OidPageid>, oid: int, n: nat, accept: seq<Slot> -> bool)
    : (e: nat)
    ensures n <= e && (n <= |roots| ==> e <= |roots|)
    ensures FirstAccepted(pages, roots, oid, n, accept).Some? <==>
      (n < e <= |roots| && roots[e - 1].value1 == oid && accept(PageOf(pages, roots[e - 1].value2)))
    ensures FirstAccepted(pages, roots, oid, n, accept).Some? ==> FirstAccepted(pages, roots, oid, n, accept).value == roots[e - 1].value2
    decreases |roots| - n
  {
    if n >= |roots| then n
    else if roots[n].value1 == oid && accept(PageOf(pages, roots[n].value2)) then n + 1
    else AcceptedEnd(pages, roots, oid, n + 1, accept)
  }

  /** Records of other tables do not move where the search stops. */
  lemma {:induction false} AcceptedEndSkipped(pages: map<int, seq<Slot>>, roots: seq<OidPageid>, oid: int, n: nat, m: nat,
                                             accept: seq<Slot> -> bool)
    requires n <= m <= |roots| && Skipped(roots, oid, n, m)
    ensures AcceptedEnd(pages, roots, oid, n, accept) == AcceptedEnd(pages, roots, oid, m, accept)
    decreases m - n
  {
    if n < m {
      AcceptedEndSkipped(pages, roots, oid, n + 1, m, accept);
    }
  }

  /**
   * One move of the seek, from position `n` past records of other tables to the record at
   * `m - 1`: what is found from `n` is that record's page when the predicate takes it, and
   * what is found from `m` otherwise.
   */
  lemma FirstAcceptedMoved(pages: map<int, seq<Slot>>, roots: seq<OidPageid>, oid: int, n: nat, m: nat,
                           accept: seq<Slot> -> bool)
    requires n < m <= |roots| && Skipped(roots, oid, n, m - 1)
    ensures FirstAccepted(pages, roots, oid, n, accept)
      == if roots[m - 1].value1 == oid && accept(PageOf(pages, roots[m - 1].value2)) then Some(roots[m - 1].value2)
         else FirstAccepted(pages, roots, oid, m, accept)
  {
    FirstAcceptedSkipped(pages, roots, oid, n, m - 1, accept);
  }

  /** The same move: the search from `n` stops at `m` when the record at `m - 1` is taken, where the search from `m` stops otherwise. */
  lemma AcceptedEndMoved(pages: map<int, seq<Slot>>, roots: seq<OidPageid>, oid: int, n: nat, m: nat,
                         accept: seq<Slot> -> bool)
    requires n < m <= |roots| && Skipped(roots, oid, n, m - 1)
    ensures AcceptedEnd(pages, roots, oid, n, accept)
      == if roots[m - 1].value1 == oid && accept(PageOf(pages, roots[m - 1].value2)) then m
         else AcceptedEnd(pages, roots, oid, m, accept)
  {
    AcceptedEndSkipped(pages, roots, oid, n, m - 1, accept);
  }

  /** One directory record: its page when it is a table page the predicate takes, what follows otherwise. */
  lemma FirstAcceptedStep(pages: map<int, seq<Slot>>, roots: seq<OidPageid>, oid: int, n: nat, accept: seq<Slot> -> bool)
    requires n < |roots|
    ensures FirstAccepted(pages, roots, oid, n, accept)
      == if roots[n].value1 == oid && accept(PageOf(pages, roots[n].value2)) then Some(roots[n].value2)
         else FirstAccepted(pages, roots, oid, n + 1, accept)
  {
  }

  /** Seen from the start of the directory, what is found is a table page the predicate takes, and nothing is found only when it takes none. */
  lemma FirstAcceptedOfTable(pages: map<int, seq<Slot>>, roots: seq<OidPageid>, oid: int, accept: seq<Slot> -> bool)
    ensures var r := FirstAccepted(pages, roots, oid, 0, accept);
      (r.Some? ==> r.value in TablePages(roots, oid) && accept(PageOf(pages, r.value)))
      && (r.None? ==> forall p :: p in TablePages(roots, oid) ==> !accept(PageOf(pages, p)))
  {
    var r := FirstAccepted(pages, roots, oid, 0, accept);
    FirstAcceptedIsFirst(pages, roots, oid, 0, accept);
    TablePagesMembers(roots, oid);
    if r.None? {
      forall p | p in TablePages(roots, oid)
        ensures !accept(PageOf(pages, p))
      {
        var k :| 0 <= k < |roots| && roots[k] == OidPageid(oid, p);
      }
    }
  }

  /**
   * The directory position just after the first record from `n` on that names a table page
   * holding a live record: where a scan stops once it has buffered the table's first row;
   * `|roots|` when there is none.
   */
  function StartAfter(pages: map<int, seq<Slot>>, roots: seq<OidPageid>, oid: int, n: nat): (m: nat)
    requires n <= |roots|
    ensures n <= m <= |roots|
    decreases |roots| - n
  {
    if n == |roots| then n
    else if roots[n].value1 == oid && Live(PageOf(pages, roots[n].value2)) != [] then n + 1
    else StartAfter(pages, roots, oid, n + 1)
  }

  /** Directory records that add no rows do not move where the first row is found. */
  lemma {:induction false} StartAfterEmpty(pages: map<int, seq<Slot>>, roots: seq<OidPageid>, oid: int, n: nat, m: nat)
    requires n <= m <= |roots| && TableRows(pages, roots[..m], oid) == TableRows(pages, roots[..n], oid)
    ensures StartAfter(pages, roots, oid, n) == StartAfter(pages, roots, oid, m)
    decreases m - n
  {
    if n < m {
      TableRowsSnoc(pages, roots, oid, n);
      TableRowsPrefix(pages, roots, oid, n + 1, m);
      StartAfterEmpty(pages, roots, oid, n + 1, m);
    }
  }

  /**
   * What a scan has read once it is on the page of directory record `n` at slot `idx`: the
   * rows of the table pages among the records before it, then the live records of its slots
   * up to `idx`.
   */
  ghost function Scanned(pages: map<int, seq<Slot>>, roots: seq<OidPageid>, oid: int, n: int, idx: int): seq<seq<byte>>
    requires 0 <= n < |roots| && -1 <= idx < |PageOf(pages, roots[n].value2)|
  {
    TableRows(pages, roots[..n], oid) + Live(PageOf(pages, roots[n].value2)[..idx + 1])
  }

  /** Moving to the next live record `j` of the page reads its bytes. */
  lemma ScanRecord(pages: map<int, seq<Slot>>, roots: seq<OidPageid>, oid: int, n: int, idx: int)
    requires 0 <= n < |roots| && -1 <= idx < |PageOf(pages, roots[n].value2)|
    requires NextLive(PageOf(pages, roots[n].value2), idx).Some?
    ensures var page := PageOf(pages, roots[n].value2); var j := NextLive(page, idx).value;
      0 <= j < |page| && !page[j].deleted
      && Scanned(pages, roots, oid, n, j) == Scanned(pages, roots, oid, n, idx) + [page[j].data]
  {
    var page := PageOf(pages, roots[n].value2);
    NextLiveReadsOneMore(page, idx);
    var j := NextLive(page, idx).value;
    var before := TableRows(pages, roots[..n], oid);
    assert Scanned(pages, roots, oid, n, j) == before + (Live(page[..idx + 1]) + [page[j].data]);
  }

  /** With no live record left on the page of record `n`, which names the table, the scan has read the table pages among the first `n + 1` records. */
  lemma ScanPage(pages: map<int, seq<Slot>>, roots: seq<OidPageid>, oid: int, n: int, idx: int)
    requires 0 <= n < |roots| && roots[n].value1 == oid && -1 <= idx < |PageOf(pages, roots[n].value2)|
    requires NextLive(PageOf(pages, roots[n].value2), idx).None?
    ensures Scanned(pages, roots, oid, n, idx) == TableRows(pages, roots[..n + 1], oid)
  {
    NextLiveReadsOneMore(PageOf(pages, roots[n].value2), idx);
    TableRowsSnoc(pages, roots, oid, n);
  }

  /** At the first slot of the page of record `n`, the scan has read just the pages before it. */
  lemma ScanStart(pages: map<int, seq<Slot>>, roots: seq<OidPageid>, oid: int, n: int)
    requires 0 <= n < |roots|
    ensures Scanned(pages, roots, oid, n, -1) == TableRows(pages, roots[..n], oid)
  {
    assert PageOf(pages, roots[n].value2)[..0] == [];
  }

  /** What is read on the page of record `n`, which names the table, comes first among the rows of the whole table. */
  lemma ScannedPrefix(pages: map<int, seq<Slot>>, roots: seq<OidPageid>, oid: int, n: int, idx: int)
    requires 0 <= n < |roots| && roots[n].value1 == oid && -1 <= idx < |PageOf(pages, roots[n].value2)|
    ensures Scanned(pages, roots, oid, n, idx) <= TableRows(pages, roots, oid)
  {
    var page := PageOf(pages, roots[n].value2);
    LivePrefix(page, idx + 1);
    TableRowsSnoc(pages, roots, oid, n);
    RootRecordScans.PrefixAppend(TableRows(pages, roots[..n], oid), Live(page[..idx + 1]), Live(page));
    TableRowsPrefix(pages, roots, oid, n + 1, |roots|);
    TableRowsAll(pages, roots, oid);
    RootRecordScans.PrefixTrans(Scanned(pages, roots, oid, n, idx), TableRows(pages, roots[..n + 1], oid), TableRows(pages, roots, oid));
  }

  /** `FullScanIteratorImpl(pageCache, tableOid, rootRecords, parser)` with the identity as the parser. */
  class FullScanIterator {
    const store: PageStore
    const tableOid: int
    /** The directory records the root-record iterator yields, in order. */
    const roots: seq<OidPageid>
    /** The first generation pins the pages it visits; the second does not. */
    const pinning: bool
    /** How many directory records the scan has taken from the root-record iterator. */
    var rootPos: nat
    var currentPage: Option<int>
    var currentRecordIdx: int
    var currentRecord: Option<seq<byte>>
    /** The scan is on the page of the last directory record it took. */
    ghost var onPage: bool
    /** The pages as the scan reads them; nothing writes to them while it runs. */
    ghost const pages: map<int, seq<Slot>>
    /** The pin counts before the scan pinned a page. */
    ghost const pins0: map<int, Count>

    /** The live records of the whole table, in directory order and then slot order. */
    ghost function All(): seq<seq<byte>> {
      TableRows(pages, roots, tableOid)
    }

    /** The rows of the table pages among the first `n` directory records. */
    ghost function Done(n: int): seq<seq<byte>> {
      if 0 <= n <= |roots| then TableRows(pages, roots[..n], tableOid) else []
    }

    /** The scan is on a page of the table: the last directory record it took names the table. */
    ghost predicate Holding()
      reads this
    {
      onPage && 0 < rootPos <= |roots| && roots[rootPos - 1].value1 == tableOid
    }

    /** The page the last directory record taken names. */
    ghost function Cur(): int
      reads this
    {
      if 0 < rootPos <= |roots| then roots[rootPos - 1].value2 else 0
    }

    /** The cursor is on a slot of the current page, or just before its first. */
    ghost predicate OnSlot()
      reads this
    {
      -1 <= currentRecordIdx < |PageOf(pages, Cur())|
    }

    /**
     * The records read so far, the buffered one included: the table pages before the current
     * one and its slots up to the cursor while on a page, every table page taken otherwise.
     */
    ghost function Read(): seq<seq<byte>>
      reads this
    {
      if Holding() && OnSlot() then Scanned(pages, roots, tableOid, rootPos - 1, currentRecordIdx)
      else Done(rootPos)
    }

    /** The buffered record, if any, as a list. */
    function Buffered(): (b: seq<seq<byte>>)
      reads this
      ensures |b| == if currentRecord.Some? then 1 else 0
    {
      if currentRecord.Some? then [currentRecord.value] else []
    }

    /**
     * The page cache shows the pages the scan reads; every page has the pins it had before,
     * and, when the scan pins, the page it is on one more.
     */
    ghost predicate Attached()
      reads this, store
    {
      store.pages == pages && rootPos <= |roots|
      && store.pins == if pinning && Holding() then Pin(pins0, Cur()) else pins0
    }

    /** Where `advance` starts from: before the first directory record, or on a slot of the current page. */
    ghost predicate Positioned()
      reads this, store
    {
      Attached()
      && ((rootPos == 0 && currentPage.None? && !onPage) || (Holding() && currentPage == Some(Cur()) && OnSlot()))
    }

    /** The live record under the cursor; nothing off a page or on a deleted slot. */
    ghost function Under(): Option<seq<byte>>
      reads this
    {
      if Holding() && 0 <= currentRecordIdx < |PageOf(pages, Cur())| && !PageOf(pages, Cur())[currentRecordIdx].deleted
      then Some(PageOf(pages, Cur())[currentRecordIdx].data)
      else None
    }

    /**
     * The buffered record is the live record under the cursor of the current page; with none,
     * every directory record has been taken and no page is held.
     */
    ghost predicate Cursor()
      reads this
    {
      currentRecord == Under() && (currentRecord.Some? ==> currentPage == Some(Cur()))
      && (currentRecord.None? ==> !Holding() && rootPos == |roots|)
    }

    /** The scan is attached to the page cache, and its cursor is consistent. */
    ghost predicate Valid()
      reads this, store
    {
      Attached() && Cursor()
    }

    /** The first generation closes the current page when it moves on: it holds a pin on it, or there is none yet. */
    ghost predicate Closable()
      reads this
    {
      !pinning || (currentPage.None? && !Holding()) || (Holding() && currentPage == Some(Cur()))
    }

    /** Some table page has a negative id, which the first generation cannot write back. */
    ghost predicate NegativePage() {
      exists k :: 0 <= k < |roots| && roots[k].value1 == tableOid && roots[k].value2 < 0
    }

    /**
     * A first-generation scan that has run out of directory records still names the last page
     * it visited, which it has already closed.
     */
    predicate Stale()
      reads this
    {
      pinning && currentRecord.None? && currentPage.Some?
    }

    /** A scan that has buffered its first row, or found none, stands just after the first table page holding a live record. */
    lemma StartPosition()
      requires Valid() && Read() == Buffered()
      ensures rootPos == StartAfter(pages, roots, tableOid, 0)
    {
      assert roots[..0] == [];
      if currentRecord.None? {
        StartAfterEmpty(pages, roots, tableOid, 0, |roots|);
      } else {
        var n := rootPos - 1;
        var page := PageOf(pages, Cur());
        var idx := currentRecordIdx;
        assert page[..idx + 1][..idx] == page[..idx];
        assert Live(page[..idx + 1]) == Live(page[..idx]) + [page[idx].data];
        LivePrefix(page, idx + 1);
        StartAfterEmpty(pages, roots, tableOid, 0, n);
      }
    }

    /** What is read is the first part of the table's records. */
    lemma ReadInAll()
      requires Attached() && (Holding() ==> OnSlot())
      ensures Read() <= All()
    {
      if Holding() {
        ScannedPrefix(pages, roots, tableOid, rootPos - 1, currentRecordIdx);
      } else {
        TableRowsPrefix(pages, roots, tableOid, rootPos, |roots|);
        TableRowsAll(pages, roots, tableOid);
      }
    }

    /** With nothing buffered, the whole table is read and no pin is held. */
    lemma Finished()
      requires Valid() && currentRecord.None?
      ensures Read() == All() && store.pins == pins0
    {
      TableRowsAll(pages, roots, tableOid);
    }

    constructor (store: PageStore, tableOid: int, roots: seq<OidPageid>, pinning: bool)
      ensures this.store == store && this.tableOid == tableOid && this.roots == roots && this.pinning == pinning
      ensures rootPos == 0 && currentPage.None? && currentRecordIdx == 0 && currentRecord.None?
      ensures pages == store.pages && pins0 == store.pins
      ensures Positioned() && Read() == []
    {
      this.store := store;
      this.tableOid := tableOid;
      this.roots := roots;
      this.pinning := pinning;
      rootPos := 0;
      currentPage := None;
      currentRecordIdx := 0;
      currentRecord := None;
      onPage := false;
      pages := store.pages;
      pins0 := store.pins;
    }

    /** `hasNext()`. */
    function HasNext(): (b: bool)
      reads this
      ensures b <==> currentRecord.Some?
    {
      currentRecord != None
    }

    /**
     * `advancePage()`: the first generation closes the current page; then the scan takes
     * directory records until one names the table, and pins (first generation) or just reads
     * (second generation) that page. `r.value` is the page found, none once the directory is
     * exhausted. Closing fails only for a page without an id, after its last pin.
     */
    method AdvancePage() returns (r: Result<Option<int>>)
      requires Attached() && Closable()
      modifies this, store
      ensures store.pages == old(store.pages)
      ensures currentPage == old(currentPage) && currentRecord == old(currentRecord)
      ensures currentRecordIdx == old(currentRecordIdx)
      ensures r.Err? ==>
        pinning && old(Holding()) && old(Cur()) < 0 && old(Cur()) !in pins0 && r.error == IllegalArgument
      ensures r.Ok? ==> Attached() && old(rootPos) <= rootPos
      ensures r.Ok? && r.value.None? ==> !Holding() && rootPos == |roots| && Skipped(roots, tableOid, old(rootPos), rootPos)
      ensures r.Ok? && r.value.Some? ==>
        Holding() && old(rootPos) < rootPos && r.value.value == Cur()
        && Skipped(roots, tableOid, old(rootPos), rootPos - 1)
    {
      if pinning && currentPage.Some? {
        UnpinPin(pins0, Cur());
        var closed := store.Close(currentPage.value);
        if closed.Err? {
          return Err(closed.error);
        }
      }
      onPage := false;
      while rootPos < |roots|
        invariant old(rootPos) <= rootPos <= |roots| && !onPage
        invariant currentPage == old(currentPage) && currentRecord == old(currentRecord)
        invariant currentRecordIdx == old(currentRecordIdx)
        invariant store.pages == pages && store.pins == pins0
        invariant Skipped(roots, tableOid, old(rootPos), rootPos)
        decreases |roots| - rootPos
      {
        var record := roots[rootPos];
        rootPos := rootPos + 1;
        if record.value1 == tableOid {
          if pinning {
            store.GetAndPin(record.value2);
          }
          onPage := true;
          return Ok(Some(record.value2));
        }
      }
      r := Ok(None);
    }

    /**
     * `advance()`: buffer the next live record of the current page, moving on page by page
     * while the current one has no more, or buffer nothing once the directory is exhausted.
     */
    method Advance() returns (r: Result<()>)
      requires Positioned()
      modifies this, store
      ensures store.pages == old(store.pages)
      ensures r.Ok? ==> Valid() && Read() == old(Read()) + Buffered()
      ensures r.Err? ==> pinning && r.error == IllegalArgument && NegativePage()
      decreases |roots| - rootPos, 1
    {
      var next := RootRecordScans.AdvanceRecord(store, currentPage, currentRecordIdx);
      if next.None? {
        r := NextPage();
      } else {
        Take(next.value.0, next.value.1);
        r := Ok(());
      }
    }

    /** Once the current page has no record left, the table pages up to it have been read. */
    lemma ReadPageOut()
      requires Positioned()
      requires currentPage.Some? ==> NextLive(PageOf(pages, Cur()), currentRecordIdx).None?
      ensures Read() == Done(rootPos)
    {
      if currentPage.Some? {
        ScanPage(pages, roots, tableOid, rootPos - 1, currentRecordIdx);
      }
    }

    /** `advance()` when the current page has no record left: the next table page, if any, from its start. */
    method NextPage() returns (r: Result<()>)
      requires Positioned()
      requires currentPage.Some? ==> NextLive(PageOf(pages, Cur()), currentRecordIdx).None?
      modifies this, store
      ensures store.pages == old(store.pages)
      ensures r.Ok? ==> Valid() && Read() == old(Read()) + Buffered()
      ensures r.Err? ==> pinning && r.error == IllegalArgument && NegativePage()
      decreases |roots| - rootPos, 0
    {
      ghost var from := rootPos;
      ghost var cur := Cur();
      ghost var held := Holding();
      ReadPageOut();
      var more := AdvancePage();
      if more.Err? {
        assert held && roots[from - 1].value1 == tableOid && roots[from - 1].value2 == cur;
        return Err(more.error);
      }
      if more.value.None? {
        SkippedRows(pages, roots, tableOid, from, rootPos);
        currentRecord := None;
        return Ok(());
      }
      SkippedRows(pages, roots, tableOid, from, rootPos - 1);
      currentPage := more.value;
      r := EnterPage();
    }

    /** `advance()` on a page just taken: its records from the first slot on. */
    method EnterPage() returns (r: Result<()>)
      requires Attached() && Holding() && currentPage == Some(Cur())
      modifies this, store
      ensures store.pages == old(store.pages)
      ensures r.Ok? ==> Valid() && Read() == old(Done(rootPos - 1)) + Buffered()
      ensures r.Err? ==> pinning && r.error == IllegalArgument && NegativePage()
      decreases |roots| - rootPos, 2
    {
      currentRecordIdx := -1;
      ScanStart(pages, roots, tableOid, rootPos - 1);
      r := Advance();
    }

    /** `advance()` when the current page has a live record at `id` after the cursor: buffer it. */
    method Take(bytes: seq<byte>, id: int)
      requires Positioned() && currentPage.Some?
      requires NextLive(PageOf(pages, Cur()), currentRecordIdx) == Some(id)
      requires 0 <= id < |PageOf(pages, Cur())| && bytes == PageOf(pages, Cur())[id].data
      modifies this
      ensures Valid() && Read() == old(Read()) + Buffered() && currentRecord.Some?
    {
      ScanRecord(pages, roots, tableOid, rootPos - 1, currentRecordIdx);
      currentRecordIdx := id;
      currentRecord := Some(bytes);
    }

    /** `next()`: the buffered record, then advance; with none buffered, `!!` throws. */
    method Next() returns (r: Result<seq<byte>>)
      requires Valid()
      modifies this, store
      ensures store.pages == old(store.pages)
      ensures old(currentRecord).None? ==> r == Err(NullPointer) && currentRecord.None? && Valid()
      ensures r.Ok? ==> r.value == old(currentRecord).value && Valid() && Read() == old(Read()) + Buffered()
      ensures r.Err? && old(currentRecord).Some? ==> pinning && r.error == IllegalArgument && NegativePage()
    {
      if currentRecord.None? {
        return Err(NullPointer);
      }
      var value := currentRecord.value;
      var advanced := Advance();
      if advanced.Err? {
        return Err(advanced.error);
      }
      r := Ok(value);
    }

    /**
     * Draining the scan (`toList()`, `forEach`) after it has read just its buffered record:
     * every live record of the table in order, with every pin released.
     */
    method ToList() returns (r: Result<seq<seq<byte>>>)
      requires Valid() && Read() == Buffered()
      modifies this, store
      ensures store.pages == old(store.pages)
      ensures r.Ok? ==> r.value == All() && store.pins == pins0
      ensures r.Err? ==> pinning && r.error == IllegalArgument && NegativePage()
    {
      var acc: seq<seq<byte>> := [];
      ReadInAll();
      while HasNext()
        invariant Valid() && Read() == acc + Buffered() && Read() <= All()
        decreases |All()| - |acc|
      {
        var value := Next();
        if value.Err? {
          return Err(value.error);
        }
        acc := acc + [value.value];
        ReadInAll();
      }
      Finished();
      r := Ok(acc);
    }

    /**
     * `seekFirstPage(filter)`: walk the rest of the directory for the first table page whose
     * slots `accept` takes. Each page the filter refuses becomes the current page and is
     * closed by the next step (first generation); the page found stays pinned and is not made
     * the current page. Nothing is found once the directory is exhausted; a first-generation
     * scan that is already past its last page closes that page a second time on the way.
     */
    method SeekFirstPage(accept: seq<Slot> -> bool) returns (r: Result<Option<int>>)
      requires Valid()
      modifies this, store
      ensures store.pages == old(store.pages)
      ensures r.Ok? ==> r.value == FirstAccepted(pages, roots, tableOid, old(rootPos), accept)
      ensures !old(Stale()) && r.Ok? ==> store.pins == if pinning && r.value.Some? then Pin(pins0, r.value.value) else pins0
      ensures !old(Stale()) && r.Ok? && r.value.Some? ==> rootPos == AcceptedEnd(pages, roots, tableOid, old(rootPos), accept)
      ensures !old(Stale()) && r.Err? ==> pinning && r.error == IllegalArgument && NegativePage()
      ensures old(Stale()) ==> var q := old(currentPage).value;
        store.pins == (if q in pins0 then Unpin(pins0, q) else pins0)
        && r == if q !in pins0 then (if store.assertsPinned then Err(AssertionFailed) else Ok(None))
          else if q !in store.pins && q < 0 then Err(IllegalArgument) else Ok(None)
    {
      if Stale() {
        var closed := store.Close(currentPage.value);
        if closed.Err? {
          return Err(closed.error);
        }
        return Ok(None);
      }
      ghost var target := FirstAccepted(pages, roots, tableOid, rootPos, accept);
      ghost var stop := AcceptedEnd(pages, roots, tableOid, rootPos, accept);
      while true
        invariant Attached() && Closable()
        invariant FirstAccepted(pages, roots, tableOid, rootPos, accept) == target
        invariant AcceptedEnd(pages, roots, tableOid, rootPos, accept) == stop
        decreases |roots| - rootPos
      {
        ghost var from := rootPos;
        ghost var held := Holding();
        ghost var cur := Cur();
        var page := AdvancePage();
        if page.Err? {
          assert held && roots[from - 1].value1 == tableOid && roots[from - 1].value2 == cur;
          return Err(page.error);
        }
        if page.value.None? {
          FirstAcceptedSkipped(pages, roots, tableOid, from, rootPos, accept);
          return Ok(None);
        }
        FirstAcceptedMoved(pages, roots, tableOid, from, rootPos, accept);
        AcceptedEndMoved(pages, roots, tableOid, from, rootPos, accept);
        if accept(store.Slots(page.value.value)) {
          return Ok(page.value);
        }
        currentPage := page.value;
      }
    }
  }

  /**
   * The scan's constructor, then `advance()` from its `init` block: the scan starts before the
   * first directory record and buffers the table's first live record.
   */
  method Open(store: PageStore, tableOid: int, roots: seq<OidPageid>, pinning: bool) returns (r: Result<FullScanIterator>)
    modifies store
    ensures store.pages == old(store.pages)
    ensures r.Ok? ==>
      fresh(r.value) && r.value.store == store && r.value.Valid()
      && r.value.tableOid == tableOid && r.value.roots == roots && r.value.pinning == pinning
      && r.value.pages == old(store.pages) && r.value.pins0 == old(store.pins)
      && r.value.Read() == r.value.Buffered() && r.value.rootPos == StartAfter(old(store.pages), roots, tableOid, 0)
    ensures r.Err? ==> pinning && r.error == IllegalArgument
  {
    var it := new FullScanIterator(store, tableOid, roots, pinning);
    var advanced := it.Advance();
    if advanced.Err? {
      return Err(advanced.error);
    }
    assert it.Read() == [] + it.Buffered();
    it.StartPosition();
    r := Ok(it);
  }

  /**
   * A whole scan of table `tableOid` over the directory records `roots`: the live records of
   * its pages in directory order and then slot order. Every pin is released at the end; only
   * the first generation can fail, on a table page without an id.
   */
  method Scan(store: PageStore, tableOid: int, roots: seq<OidPageid>, pinning: bool) returns (r: Result<seq<seq<byte>>>)
    modifies store
    ensures store.pages == old(store.pages)
    ensures r.Ok? ==> r.value == TableRows(store.pages, roots, tableOid) && store.pins == old(store.pins)
    ensures r.Err? ==> pinning && r.error == IllegalArgument
  {
    var started := Open(store, tableOid, roots, pinning);
    if started.Err? {
      return Err(started.error);
    }
    r := started.value.ToList();
  }

  /** A table no directory record names yields nothing. */
  lemma {:induction false} NoPagesNoRows(pages: map<int, seq<Slot>>, roots: seq<OidPageid>, oid: int)
    requires forall k :: 0 <= k < |roots| ==> roots[k].value1 != oid
    ensures TablePages(roots, oid) == [] && TableRows(pages, roots, oid) == []
    decreases |roots|
  {
    if roots != [] {
      NoPagesNoRows(pages, roots[..|roots| - 1], oid);
    }
  }

  /** A table whose pages hold only deleted records, or none, yields nothing. */
  lemma {:induction false} EmptyPagesNoRows(pages: map<int, seq<Slot>>, roots: seq<OidPageid>, oid: int)
    requires forall p :: p in TablePages(roots, oid) ==> Live(PageOf(pages, p)) == []
    ensures TableRows(pages, roots, oid) == []
    decreases |roots|
  {
    if roots != [] {
      var n := |roots| - 1;
      assert roots[..n + 1] == roots;
      TablePagesSnoc(roots[..n], roots[n], oid);
      EmptyPagesNoRows(pages, roots[..n], oid);
      TableRowsSnoc(pages, roots, oid, n);
    }
  }
}
