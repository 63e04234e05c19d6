/**
 * `advanceRecord` and `RootRecordIteratorImpl`, which both generations of `AccessMethods.kt`
 * define alike: a cursor over the live records of a page, and an iterator that reads the
 * `(oid, pageId)` records of the directory pages `start, start + 1, ...` one page at a time,
 * holding a pin on the page it is on.
 */
module RootRecordScans {
  import opened Bytes
  import opened StorageApi
  import opened PageLayout
  import opened PageModel
  import opened PageStores
  import opened Scans

  /**
   * `advanceRecord(currentPage, currentRecordIdx)`: the bytes and the id of the first live
   * record after `idx` on the page, asking `getRecord` for one id after another; nothing for
   * no page or once an id is out of range.
   */
  method AdvanceRecord(store: PageStore, page: Option<int>, idx: int) returns (r: Option<(seq<byte>, int)>)
    ensures page.None? ==> r.None?
    ensures page.Some? ==> (r.Some? <==> NextLive(PageOf(store.pages, page.value), idx).Some?)
    ensures r.Some? ==>
      page.Some? && r.value.1 == NextLive(PageOf(store.pages, page.value), idx).value
      && 0 <= r.value.1 < |PageOf(store.pages, page.value)| && r.value.0 == PageOf(store.pages, page.value)[r.value.1].data
  {
    ghost var slots := if page.Some? then PageOf(store.pages, page.value) else [];
    var next := idx;
    while true
      invariant page.Some? ==> NextLive(slots, next) == NextLive(slots, idx)
      decreases |slots| - next
    {
      next := next + 1;
      if page.None? {
        return None;
      }
      var record := store.GetRecord(page.value, next);
      if record.IsOk() {
        return Some((record.bytes, next));
      }
      if record.isOutOfRange {
        return None;
      }
    }
  }

  /**
   * What a scan of pages `start, start + 1, ...` has read once it is on page `cur` at slot
   * `idx`: the live records of the pages before it, then those of its slots up to `idx`.
   */
  ghost function Scanned(pages: map<int, seq<Slot>>, start: int, cur: int, idx: int): seq<seq<byte>>
    requires -1 <= idx < |PageOf(pages, cur)|
  {
    Rows(Range(pages, start, cur)) + Live(PageOf(pages, cur)[..idx + 1])
  }

  /** The live records of pages `start, ..., cur - 1` and then page `cur`: one page more. */
  lemma ReadThrough(pages: map<int, seq<Slot>>, start: int, cur: int)
    requires start <= cur
    ensures Rows(Range(pages, start, cur + 1)) == Rows(Range(pages, start, cur)) + Live(PageOf(pages, cur))
  {
    RowsSnoc(Range(pages, start, cur), PageOf(pages, cur));
  }

  /** Sequence prefixes compose. */
  lemma PrefixTrans<T>(a: seq<T>, b: seq<T>, c: seq<T>)
    requires a <= b && b <= c
    ensures a <= c
  {
    assert b[..|a|] == c[..|b|][..|a|];
  }

  /** A common front keeps a prefix a prefix. */
  lemma PrefixAppend<T>(a: seq<T>, b: seq<T>, c: seq<T>)
    requires b <= c
    ensures a + b <= a + c
  {
    assert (a + c)[..|a + b|] == a + c[..|b|];
  }

  /** The live records of a page up to slot `k` come before the rest of that page's. */
  lemma ReadInPage(pages: map<int, seq<Slot>>, start: int, cur: int, k: int)
    requires start <= cur && 0 <= k <= |PageOf(pages, cur)|
    ensures Rows(Range(pages, start, cur)) + Live(PageOf(pages, cur)[..k]) <= Rows(Range(pages, start, cur + 1))
  {
    LivePrefix(PageOf(pages, cur), k);
    ReadThrough(pages, start, cur);
    PrefixAppend(Rows(Range(pages, start, cur)), Live(PageOf(pages, cur)[..k]), Live(PageOf(pages, cur)));
  }

  /** The live records of the pages up to `n` come first among those of the pages up to `stop`. */
  lemma {:induction false} RangeRowsPrefix(pages: map<int, seq<Slot>>, start: int, n: int, stop: int)
    requires start <= n <= stop
    ensures Rows(Range(pages, start, n)) <= Rows(Range(pages, start, stop))
    decreases stop - n
  {
    if n < stop {
      var front := Rows(Range(pages, start, stop - 1));
      RangeRowsPrefix(pages, start, n, stop - 1);
      ReadThrough(pages, start, stop - 1);
      assert (front + Live(PageOf(pages, stop - 1)))[..|front|] == front;
      PrefixTrans(Rows(Range(pages, start, n)), front, Rows(Range(pages, start, stop)));
    }
  }

  /** What is read of pages `start, ..., cur` comes first among the live records of pages up to `stop`. */
  lemma ReadPrefix(pages: map<int, seq<Slot>>, start: int, cur: int, k: int, stop: int)
    requires start <= cur < stop && 0 <= k <= |PageOf(pages, cur)|
    ensures Rows(Range(pages, start, cur)) + Live(PageOf(pages, cur)[..k]) <= Rows(Range(pages, start, stop))
  {
    ReadInPage(pages, start, cur, k);
    RangeRowsPrefix(pages, start, cur + 1, stop);
    PrefixTrans(Rows(Range(pages, start, cur)) + Live(PageOf(pages, cur)[..k]),
      Rows(Range(pages, start, cur + 1)), Rows(Range(pages, start, stop)));
  }

  /** Moving to the next live record `j` of page `cur` reads its bytes. */
  lemma ScanRecord(pages: map<int, seq<Slot>>, start: int, cur: int, idx: int)
    requires -1 <= idx < |PageOf(pages, cur)|
    requires NextLive(PageOf(pages, cur), idx).Some?
    ensures var j := NextLive(PageOf(pages, cur), idx).value;
      0 <= j < |PageOf(pages, cur)| && !PageOf(pages, cur)[j].deleted
      && Scanned(pages, start, cur, j) == Scanned(pages, start, cur, idx) + [PageOf(pages, cur)[j].data]
  {
    NextLiveReadsOneMore(PageOf(pages, cur), idx);
  }

  /** A live record of the range that does not parse fails the parse of the whole range. */
  lemma BadRecord(pages: map<int, seq<Slot>>, start: int, stop: int, cur: int, j: int)
    requires start <= cur < stop && 0 <= j < |PageOf(pages, cur)| && !PageOf(pages, cur)[j].deleted
    requires ParseOidPageid(PageOf(pages, cur)[j].data).Err?
    ensures ParseAll(Rows(Range(pages, start, stop))).Err?
  {
    var slots := PageOf(pages, cur);
    ReadPrefix(pages, start, cur, j + 1, stop);
    assert slots[..j + 1][..j] == slots[..j];
    var read := Rows(Range(pages, start, cur)) + Live(slots[..j + 1]);
    assert read[|read| - 1] == slots[j].data;
    assert Rows(Range(pages, start, stop))[|read| - 1] == slots[j].data;
  }

  /** With no live record left on page `cur`, the scan has read every page up to it. */
  lemma ScanPage(pages: map<int, seq<Slot>>, start: int, cur: int, idx: int)
    requires start <= cur && -1 <= idx < |PageOf(pages, cur)|
    requires NextLive(PageOf(pages, cur), idx).None?
    ensures Scanned(pages, start, cur, idx) == Rows(Range(pages, start, cur + 1))
  {
    NextLiveReadsOneMore(PageOf(pages, cur), idx);
    ReadThrough(pages, start, cur);
  }

  /** At the first slot of page `cur` the scan has read just the pages before it. */
  lemma ScanStart(pages: map<int, seq<Slot>>, start: int, cur: int)
    ensures Scanned(pages, start, cur, -1) == Rows(Range(pages, start, cur))
  {
    assert PageOf(pages, cur)[..0] == [];
  }

  /** Past the last page of the range, the pages read are the whole range. */
  lemma RangeEnd(pages: map<int, seq<Slot>>, start: int, cur: int, stop: int)
    requires start <= cur < stop || cur == start - 1
    requires stop <= cur + 1
    ensures Range(pages, start, cur + 1) == Range(pages, start, stop)
  {
  }

  /** `RootRecordIteratorImpl(pageCache, startRootPageId, maxRootPageCount)`. */
  class RootRecordIterator {
    const store: PageStore
    const startRootPageId: int
    const maxRootPageCount: int
    var currentRecord: Option<OidPageid>
    var currentRecordIdx: int
    var currentRootPageId: int
    var currentPage: Option<int>
    /** The pages as the iterator reads them; nothing writes to them while it runs. */
    ghost const pages: map<int, seq<Slot>>
    /** The pin counts before the iterator pinned a page. */
    ghost const pins0: map<int, Count>

    /** The first page id past the range. */
    function Stop(): int {
      startRootPageId + maxRootPageCount
    }

    /** The live records of every page in the range, in page order and then slot order. */
    ghost function All(): seq<seq<byte>> {
      Rows(Range(pages, startRootPageId, Stop()))
    }

    /** The iterator is on a page of the range, and holds a pin on it. */
    ghost predicate Holding()
      reads this
    {
      currentPage == Some(currentRootPageId) && startRootPageId <= currentRootPageId < Stop()
    }

    /** The cursor is on a slot of the current page, or just before its first. */
    ghost predicate OnSlot()
      reads this
    {
      -1 <= currentRecordIdx < |PageOf(pages, currentRootPageId)|
    }

    /**
     * The bytes of the records read so far, the buffered one included: nothing before the
     * first page, the pages before the current one and its slots up to the cursor while on a
     * page, every page of the range once past it.
     */
    ghost function Read(): seq<seq<byte>>
      reads this
    {
      if Holding() && OnSlot() then Scanned(pages, startRootPageId, currentRootPageId, currentRecordIdx)
      else if currentRootPageId < startRootPageId then []
      else All()
    }

    /** The bytes of the buffered record, if any. */
    ghost function Buffered(): seq<seq<byte>>
      reads this
    {
      if currentRecord.Some? && 0 <= currentRecordIdx < |PageOf(pages, currentRootPageId)|
      then [PageOf(pages, currentRootPageId)[currentRecordIdx].data]
      else []
    }

    /** The buffered record, if any, as a list. */
    function Pending(): (p: seq<OidPageid>)
      reads this
      ensures |p| == if currentRecord.Some? then 1 else 0
      ensures currentRecord.Some? ==> p[0] == currentRecord.value
    {
      if currentRecord.Some? then [currentRecord.value] else []
    }

    /**
     * The page cache shows the pages the iterator reads; every page has the pins it had
     * before, and the page the iterator is on one more.
     */
    ghost predicate Attached()
      reads this, store
    {
      store.pages == pages && store.pins == if Holding() then Pin(pins0, currentRootPageId) else pins0
    }

    /** Where `advance` starts from: before the first page, or on a slot of a page of the range. */
    ghost predicate Positioned()
      reads this, store
    {
      Attached()
      && ((currentPage.None? && currentRootPageId == startRootPageId - 1) || (Holding() && OnSlot()))
    }

    /** The iterator is attached to the page cache, and its cursor is consistent. */
    ghost predicate Valid()
      reads this, store
    {
      Attached() && Cursor()
    }

    /** The live record under the cursor, parsed; nothing off a page, on a deleted slot or on bytes that do not parse. */
    ghost function Under(): Option<OidPageid>
      reads this
    {
      if Holding() && 0 <= currentRecordIdx < |PageOf(pages, currentRootPageId)|
        && !PageOf(pages, currentRootPageId)[currentRecordIdx].deleted
      then
        match ParseOidPageid(PageOf(pages, currentRootPageId)[currentRecordIdx].data)
        case Ok(record) => Some(record)
        case Err(_) => None
      else None
    }

    /**
     * The buffered record is the live record under the cursor, parsed; with none, every page of
     * the range has been read and released.
     */
    ghost predicate Cursor()
      reads this
    {
      currentRecord == Under() && (currentRecord.None? ==> !Holding() && startRootPageId <= currentRootPageId)
    }

    /** What is read is the first part of the range's records. */
    lemma ReadInAll()
      requires Valid()
      ensures Read() <= All()
    {
      if Holding() {
        ReadPrefix(pages, startRootPageId, currentRootPageId, currentRecordIdx + 1, Stop());
      }
    }

    /** The buffered record's bytes parse to it. */
    lemma BufferedParses()
      requires Valid()
      ensures currentRecord.Some? ==> |Buffered()| == 1 && ParseOidPageid(Buffered()[0]) == Ok(currentRecord.value)
      ensures currentRecord.None? ==> Buffered() == []
    {
    }

    /** Having read one more record, the records read parse to the list so far and then it. */
    lemma ParsedAfterNext(before: seq<seq<byte>>, acc: seq<OidPageid>)
      requires Valid() && Read() == before + Buffered() && ParseAll(before) == Ok(acc)
      ensures Read() <= All() && ParseAll(Read()) == Ok(acc + Pending())
    {
      ReadInAll();
      BufferedParses();
      if currentRecord.Some? {
        ParseAllSnoc(before, Buffered()[0]);
      } else {
        assert Read() == before;
        assert acc + [] == acc;
      }
    }

    /** Having read just the buffered record, the records read parse to it. */
    lemma ParsedFirst()
      requires Valid() && Read() == Buffered()
      ensures Read() <= All() && ParseAll(Read()) == Ok([] + Pending())
    {
      assert Read() == [] + Buffered();
      ParsedAfterNext([], []);
    }

    /** With nothing buffered, the whole range is read and no pin is held. */
    lemma Finished()
      requires Valid() && currentRecord.None?
      ensures Read() == All() && store.pins == pins0
    {
    }

    constructor (store: PageStore, startRootPageId: int, maxRootPageCount: int)
      ensures this.store == store && this.startRootPageId == startRootPageId
      ensures this.maxRootPageCount == maxRootPageCount
      ensures currentRecord.None? && currentRecordIdx == -1 && currentPage.None?
      ensures currentRootPageId == startRootPageId - 1 && pages == store.pages && pins0 == store.pins
      ensures Positioned() && Read() == []
    {
      this.store := store;
      this.startRootPageId := startRootPageId;
      this.maxRootPageCount := maxRootPageCount;
      currentRecord := None;
      currentRecordIdx := -1;
      currentRootPageId := startRootPageId - 1;
      currentPage := None;
      pages := store.pages;
      pins0 := store.pins;
    }

    /** `hasNext()`. */
    function HasNext(): (b: bool)
      reads this
      ensures b <==> currentRecord.Some?
    {
      currentRecord != None
    }

    /**
     * `advancePage()`: release the page the iterator is on, move to the next id, and pin that
     * page unless the range is exhausted (then the released page stays the current one).
     * `r.value` says whether a page was pinned.
     */
    method AdvancePage() returns (r: Result<bool>)
      requires Attached()
      requires (currentPage.None? && currentRootPageId == startRootPageId - 1) || Holding()
      modifies this, store
      ensures store.pages == old(store.pages)
      ensures currentRecord == old(currentRecord) && currentRecordIdx == old(currentRecordIdx)
      ensures r.Err? ==>
        old(Holding()) && old(currentRootPageId) < 0 && old(currentRootPageId) !in pins0
        && r.error == IllegalArgument
      ensures r.Ok? ==>
        currentRootPageId == old(currentRootPageId) + 1 && Attached()
        && (r.value <==> currentRootPageId < Stop())
        && currentPage == if r.value then Some(currentRootPageId) else old(currentPage)
    {
      if currentPage.Some? {
        UnpinPin(pins0, currentRootPageId);
        var closed := store.Close(currentPage.value);
        if closed.Err? {
          return Err(closed.error);
        }
      }
      currentRootPageId := currentRootPageId + 1;
      if currentRootPageId >= Stop() {
        return Ok(false);
      }
      store.GetAndPin(currentRootPageId);
      currentPage := Some(currentRootPageId);
      r := Ok(true);
    }

    /**
     * `advance()`: buffer the next live record of the current page, moving on page by page
     * while the current one has no more, or buffer nothing once the range is exhausted.
     */
    method Advance() returns (r: Result<()>)
      requires Positioned()
      modifies this, store
      ensures store.pages == old(store.pages)
      ensures r.Ok? ==> Valid() && Read() == old(Read()) + Buffered()
      ensures r.Err? ==>
        (r.error == BufferUnderflow && ParseAll(All()).Err?)
        || (r.error == IllegalArgument && startRootPageId < 0)
      decreases Stop() - currentRootPageId, 1
    {
      var next := AdvanceRecord(store, currentPage, currentRecordIdx);
      if next.None? {
        r := NextPage();
      } else {
        r := Take(next.value.0, next.value.1);
      }
    }

    /** Once the current page has no record left, the pages up to it have been read. */
    lemma ReadPageOut()
      requires Positioned()
      requires currentPage.Some? ==> NextLive(PageOf(pages, currentRootPageId), currentRecordIdx).None?
      ensures Read() == Rows(Range(pages, startRootPageId, currentRootPageId + 1))
    {
      if currentPage.Some? {
        ScanPage(pages, startRootPageId, currentRootPageId, currentRecordIdx);
      }
    }

    /** `advance()` when the current page has no record left: the next page, if any, from its start. */
    method NextPage() returns (r: Result<()>)
      requires Positioned()
      requires currentPage.Some? ==> NextLive(PageOf(pages, currentRootPageId), currentRecordIdx).None?
      modifies this, store
      ensures store.pages == old(store.pages)
      ensures r.Ok? ==> Valid() && Read() == old(Read()) + Buffered()
      ensures r.Err? ==>
        (r.error == BufferUnderflow && ParseAll(All()).Err?)
        || (r.error == IllegalArgument && startRootPageId < 0)
      decreases Stop() - currentRootPageId, 0
    {
      ghost var cur := currentRootPageId;
      ghost var done := Rows(Range(pages, startRootPageId, cur + 1));
      ReadPageOut();
      assert old(Read()) == done;
      var more := AdvancePage();
      if more.Err? {
        return Err(more.error);
      }
      if !more.value {
        RangeEnd(pages, startRootPageId, cur, Stop());
        assert done == All();
        Finish();
        assert done + [] == done;
        return Ok(());
      }
      r := EnterPage(done);
    }

    /** `advance()` past the last page: nothing is buffered, and everything has been read. */
    method Finish()
      requires Attached() && !Holding() && startRootPageId <= currentRootPageId
      modifies this
      ensures currentRecord.None? && currentRecordIdx == old(currentRecordIdx)
      ensures currentPage == old(currentPage) && currentRootPageId == old(currentRootPageId)
      ensures Valid() && Read() == All() && Buffered() == []
    {
      currentRecord := None;
    }

    /** `advance()` on a page just pinned: its records from the first slot on. */
    method EnterPage(ghost done: seq<seq<byte>>) returns (r: Result<()>)
      requires Attached() && Holding() && done == Rows(Range(pages, startRootPageId, currentRootPageId))
      modifies this, store
      ensures store.pages == old(store.pages)
      ensures r.Ok? ==> Valid() && Read() == done + Buffered()
      ensures r.Err? ==>
        (r.error == BufferUnderflow && ParseAll(All()).Err?)
        || (r.error == IllegalArgument && startRootPageId < 0)
      decreases Stop() - currentRootPageId, 2
    {
      currentRecordIdx := -1;
      ScanStart(pages, startRootPageId, currentRootPageId);
      r := Advance();
    }

    /** `advance()` when the current page has a live record at `id` after the cursor: buffer it, parsed. */
    method Take(bytes: seq<byte>, id: int) returns (r: Result<()>)
      requires Positioned() && Holding()
      requires NextLive(PageOf(pages, currentRootPageId), currentRecordIdx) == Some(id)
      requires 0 <= id < |PageOf(pages, currentRootPageId)| && bytes == PageOf(pages, currentRootPageId)[id].data
      modifies this
      ensures r.Ok? ==> Valid() && currentRecord.Some? && Read() == old(Read()) + [bytes]
      ensures r.Err? ==> r.error == BufferUnderflow && ParseAll(All()).Err?
    {
      ScanRecord(pages, startRootPageId, currentRootPageId, currentRecordIdx);
      var record := ParseOidPageid(bytes);
      if record.Err? {
        BadRecord(pages, startRootPageId, Stop(), currentRootPageId, id);
        return Err(record.error);
      }
      currentRecordIdx := id;
      currentRecord := Some(record.value);
      r := Ok(());
    }

    /** `next()`: the buffered record, then advance; with none buffered, `!!` throws. */
    method Next() returns (r: Result<OidPageid>)
      requires Valid()
      modifies this, store
      ensures store.pages == old(store.pages)
      ensures old(currentRecord).None? ==> r == Err(NullPointer) && currentRecord.None? && Valid()
      ensures r.Ok? ==> r.value == old(currentRecord).value && Valid() && Read() == old(Read()) + Buffered()
      ensures r.Err? && old(currentRecord).Some? ==>
        (r.error == BufferUnderflow && ParseAll(All()).Err?)
        || (r.error == IllegalArgument && startRootPageId < 0)
    {
      if currentRecord.None? {
        return Err(NullPointer);
      }
      var value := currentRecord.value;
      var advanced := Advance();
      if advanced.Err? {
        return Err(advanced.error);
      }
      r := Ok(value);
    }

    /**
     * `toList()` on an iterator that has read just its buffered record: every record of the
     * range in order, parsed, with every pin released.
     */
    method ToList() returns (r: Result<seq<OidPageid>>)
      requires Valid() && Read() == Buffered()
      modifies this, store
      ensures store.pages == old(store.pages)
      ensures r.Ok? ==> ParseAll(All()) == r && store.pins == pins0
      ensures r.Err? ==> ParseAll(All()).Err? || startRootPageId < 0
    {
      var acc: seq<OidPageid> := [];
      ParsedFirst();
      while HasNext()
        invariant Valid() && Read() <= All()
        invariant ParseAll(Read()) == Ok(acc + Pending())
        decreases |All()| - |Read()| + if currentRecord.Some? then 1 else 0
      {
        ghost var before := Read();
        var value := Next();
        if value.Err? {
          return Err(value.error);
        }
        ParsedAfterNext(before, acc + [value.value]);
        acc := acc + [value.value];
      }
      Finished();
      assert acc + [] == acc;
      r := Ok(acc);
    }
  }

  /**
   * RootRecordIteratorImpl's constructor, then `advance()` from its `init` block: the
   * iterator starts before page `startRootPageId` and buffers the first record.
   */
  method Open(store: PageStore, startRootPageId: int, maxRootPageCount: int) returns (r: Result<RootRecordIterator>)
    modifies store
    ensures store.pages == old(store.pages)
    ensures r.Ok? ==>
      fresh(r.value) && r.value.store == store && r.value.Valid()
      && r.value.startRootPageId == startRootPageId && r.value.maxRootPageCount == maxRootPageCount
      && r.value.pages == old(store.pages) && r.value.pins0 == old(store.pins)
      && r.value.Read() == r.value.Buffered()
    ensures r.Err? ==>
      ParseAll(Rows(Range(store.pages, startRootPageId, startRootPageId + maxRootPageCount))).Err?
      || startRootPageId < 0
  {
    var it := new RootRecordIterator(store, startRootPageId, maxRootPageCount);
    var advanced := it.Advance();
    if advanced.Err? {
      return Err(advanced.error);
    }
    assert it.Read() == [] + it.Buffered();
    r := Ok(it);
  }

  /**
   * `RootRecords(pageCache, start, max).toList()`: every live record of the pages
   * `start, ..., start + max - 1`, in page order and then slot order, parsed. Each page is
   * pinned while it is read and released before the next: afterwards every page holds the pins
   * it held before. The list fails only when a record does not parse as an
   * `(oid, pageId)` pair, or when releasing a page without an id fails.
   */
  method RootRecordsList(store: PageStore, startRootPageId: int, maxRootPageCount: int)
    returns (r: Result<seq<OidPageid>>)
    modifies store
    ensures store.pages == old(store.pages)
    ensures r.Ok? ==> ParseAll(Rows(Range(store.pages, startRootPageId, startRootPageId + maxRootPageCount))) == r
    ensures r.Ok? ==> store.pins == old(store.pins)
    ensures r.Err? ==>
      ParseAll(Rows(Range(store.pages, startRootPageId, startRootPageId + maxRootPageCount))).Err?
      || startRootPageId < 0
  {
    var started := Open(store, startRootPageId, maxRootPageCount);
    if started.Err? {
      return Err(started.error);
    }
    var it := started.value;
    assert it.All() == Rows(Range(store.pages, startRootPageId, startRootPageId + maxRootPageCount));
    r := it.ToList();
  }
}
