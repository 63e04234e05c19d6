/**
 * The `PageCache` interface as the access methods, the page directories and the catalogs
 * see it. Every page id shows a list of slots (an id nothing was written to shows an empty
 * page, which is what `readPage` hands out for it) and holds a pin count. `getAndPin` adds a
 * pin, `get` reads without one, and closing a cached page releases one; releasing the last
 * pin writes the page back, which fails for a page without an id (a negative one).
 *
 * The two buffer pools implement this interface; how they keep, evict and write back their
 * pages is modelled in their own modules.
 */
module PageStores {
  import opened Bytes
  import opened StorageApi
  import opened PageLayout
  import opened PageModel

  /** A positive pin count; a page without pins has no entry. */
  type Count = n: int | n > 0 witness 1

  /** The pins of page `id` under `pins`. */
  function PinsOf(pins: map<int, Count>, id: int): nat {
    if id in pins then pins[id] else 0
  }

  /** One pin more on page `id`. */
  function Pin(pins: map<int, Count>, id: int): (r: map<int, Count>)
    ensures PinsOf(r, id) == PinsOf(pins, id) + 1
    ensures forall q :: q != id ==> PinsOf(r, q) == PinsOf(pins, q)
  {
    pins[id := PinsOf(pins, id) + 1]
  }

  /** One pin fewer on page `id`, which holds one. */
  function Unpin(pins: map<int, Count>, id: int): (r: map<int, Count>)
    requires id in pins
    ensures PinsOf(r, id) == PinsOf(pins, id) - 1
    ensures forall q :: q != id ==> PinsOf(r, q) == PinsOf(pins, q)
  {
    if pins[id] == 1 then pins - {id} else pins[id := pins[id] - 1]
  }

  /** Releasing a pin just taken leaves the counts as they were. */
  lemma UnpinPin(pins: map<int, Count>, id: int)
    ensures Unpin(Pin(pins, id), id) == pins
  {
    if id !in pins {
      assert Pin(pins, id) - {id} == pins;
    }
  }

  /** The slots page `id` shows under `pages`: a page never written is empty. */
  function PageOf(pages: map<int, seq<Slot>>, id: int): seq<Slot> {
    if id in pages then pages[id] else []
  }

  /** The slots of pages `start, ..., stop - 1`, none when `stop <= start`. */
  function Range(pages: map<int, seq<Slot>>, start: int, stop: int): (r: seq<seq<Slot>>)
    ensures |r| == if stop <= start then 0 else stop - start
    decreases stop - start
  {
    if stop <= start then [] else Range(pages, start, stop - 1) + [PageOf(pages, stop - 1)]
  }

  /** The slots of the pages `ids`, in that order. */
  function PagesAt(pages: map<int, seq<Slot>>, ids: seq<int>): (ps: seq<seq<Slot>>)
    ensures |ps| == |ids| && forall i :: 0 <= i < |ids| ==> ps[i] == PageOf(pages, ids[i])
  {
    seq(|ids|, i requires 0 <= i < |ids| => PageOf(pages, ids[i]))
  }

  class PageStore {
    /** `DummyPageCacheImpl` asserts that a closed page holds a pin; `SimplePageCacheImpl` ignores such a close. */
    const assertsPinned: bool
    var pages: map<int, seq<Slot>>
    var pins: map<int, Count>

    constructor (assertsPinned: bool)
      ensures this.assertsPinned == assertsPinned && pages == map[] && pins == map[]
    {
      this.assertsPinned := assertsPinned;
      pages := map[];
      pins := map[];
    }

    /** The slots page `id` shows. */
    function Slots(id: int): seq<Slot>
      reads this
    {
      PageOf(pages, id)
    }

    /** The pins page `id` holds. */
    function Pins(id: int): nat
      reads this
    {
      PinsOf(pins, id)
    }

    /** `getAndPin(id)`: page `id` holds one pin more; no page changes. */
    method GetAndPin(id: int)
      modifies this
      ensures pins == Pin(old(pins), id) && pages == old(pages)
    {
      pins := Pin(pins, id);
    }

    /**
     * `close()` of cached page `id`: one pin fewer. Without a pin, the first-generation pool
     * fails its assertion and the second does nothing. Releasing the last pin writes the page
     * back, which throws for a negative id after the pin is gone.
     */
    method Close(id: int) returns (r: Result<()>)
      modifies this
      ensures pages == old(pages)
      ensures id !in old(pins) ==>
        pins == old(pins) && r == (if assertsPinned then Err(AssertionFailed) else Ok(()))
      ensures id in old(pins) ==>
        pins == Unpin(old(pins), id) && r == (if id !in pins && id < 0 then Err(IllegalArgument) else Ok(()))
    {
      if id !in pins {
        return if assertsPinned then Err(AssertionFailed) else Ok(());
      }
      pins := Unpin(pins, id);
      r := if id !in pins && id < 0 then Err(IllegalArgument) else Ok(());
    }

    /** `diskPage.getRecord(recordId)` on page `id`. */
    method GetRecord(id: int, recordId: int) returns (r: GetRecordResult)
      ensures r == Get(Slots(id), recordId)
    {
      r := Get(Slots(id), recordId);
    }

    /** `diskPage.putRecord(data, recordId)` on page `id`. */
    method PutRecord(id: int, data: seq<byte>, recordId: int) returns (r: PutRecordResult)
      modifies this
      ensures r == Put(old(Slots(id)), data, recordId).result
      ensures pages == old(pages)[id := Put(old(Slots(id)), data, recordId).slots] && pins == old(pins)
    {
      var o := Put(Slots(id), data, recordId);
      pages := pages[id := o.slots];
      r := o.result;
    }

    /** `diskPage.deleteRecord(recordId)` on page `id`. */
    method DeleteRecord(id: int, recordId: int)
      modifies this
      ensures pages == old(pages)[id := Delete(old(Slots(id)), recordId)] && pins == old(pins)
    {
      pages := pages[id := Delete(Slots(id), recordId)];
    }

    /** `clear()` of cached page `id`: the page is left with an empty directory. */
    method Clear(id: int)
      modifies this
      ensures pages == old(pages)[id := []] && pins == old(pins)
    {
      pages := pages[id := []];
    }
  }
}
