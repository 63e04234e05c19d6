/**
 * What a disk page means to its clients: a list of slots, each a record's bytes and a
 * tombstone flag, indexed from 0 without gaps. The page operations (`putRecord`,
 * `getRecord`, `deleteRecord`, `allRecords`, `freeSpace`) are stated here on that list,
 * and the last part of the file proves that the byte-level images of the slotted format
 * implement them.
 */
module PageModel {
  import opened Bytes
  import opened StorageApi
  import opened PageLayout

  // ===========================================================================
  // The operations on slot lists
  // ===========================================================================

  /** `freeSpace` of a page holding `slots`: what the header, the directory and the records leave. */
  function Free(slots: seq<Slot>): int {
    PAGE_SIZE - DIRECTORY_START - ENTRY_SIZE * |slots| - TotalSize(slots)
  }

  /** `getRecord(id)`. */
  function Get(slots: seq<Slot>, id: int): (r: GetRecordResult)
    ensures r.isOutOfRange <==> !(0 <= id < |slots|)
    ensures r.isDeleted <==> 0 <= id < |slots| && slots[id].deleted
    ensures r.IsOk() <==> 0 <= id < |slots| && !slots[id].deleted
    ensures r.bytes == if r.IsOk() then slots[id].data else []
  {
    if id < 0 || id >= |slots| then GetRecordResult([], false, true)
    else if slots[id].deleted then GetRecordResult([], true, false)
    else GetRecordResult(slots[id].data, false, false)
  }

  /** The slot `putRecord(data, id)` addresses: `-1` stands for the next free slot id. */
  function Target(slots: seq<Slot>, id: int): int {
    if id == -1 then |slots| else id
  }

  /** The outcome of `putRecord`: the reported result and the slots afterwards. */
  datatype PutOutcome = PutOutcome(result: PutRecordResult, slots: seq<Slot>)

  /**
   * `putRecord(data, id)`: an id outside `[0, |slots|]` is out of range; the next free id
   * appends when the record and its directory entry fit; a smaller id replaces that slot's
   * record, live, when the growth fits. A failure leaves the slots alone.
   */
  function Put(slots: seq<Slot>, data: seq<byte>, id: int): PutOutcome {
    var r := Target(slots, id);
    if r < 0 || r > |slots| then PutOutcome(PutRecordResult(r, false, true), slots)
    else if r == |slots| then
      if |data| + ENTRY_SIZE <= Free(slots) then PutOutcome(PutRecordResult(r, false, false), slots + [Slot(false, data)])
      else PutOutcome(PutRecordResult(r, true, false), slots)
    else if |data| - |slots[r].data| <= Free(slots) then PutOutcome(PutRecordResult(r, false, false), slots[r := Slot(false, data)])
    else PutOutcome(PutRecordResult(r, true, false), slots)
  }

  /** `deleteRecord(id)`: an id in range becomes a tombstone that keeps its bytes. */
  function Delete(slots: seq<Slot>, id: int): seq<Slot> {
    if 0 <= id < |slots| then slots[id := Slot(true, slots[id].data)] else slots
  }

  /** What `allRecords` reports for one slot: its bytes whether or not it is deleted. */
  function Report(x: Slot): GetRecordResult {
    GetRecordResult(x.data, x.deleted, false)
  }

  /** `allRecords()`. */
  function AllRecords(slots: seq<Slot>): map<int, GetRecordResult> {
    map i | 0 <= i < |slots| :: Report(slots[i])
  }

  // ===========================================================================
  // Properties of the operations
  // ===========================================================================

  /** A successful put is read back by `getRecord`, live, under the id it reports. */
  lemma PutThenGet(slots: seq<Slot>, data: seq<byte>, id: int)
    ensures var o := Put(slots, data, id);
      o.result.IsOk() ==> Get(o.slots, o.result.recordId) == GetRecordResult(data, false, false)
  {
  }

  /** The id a put reports, and when each flag is raised. */
  lemma PutFlags(slots: seq<Slot>, data: seq<byte>, id: int)
    ensures var o := Put(slots, data, id); var r := Target(slots, id);
      && o.result.recordId == r
      && (o.result.isOutOfRange <==> r < 0 || r > |slots|)
      && (r == |slots| ==> (o.result.IsOk() <==> |data| + ENTRY_SIZE <= Free(slots)))
      && (0 <= r < |slots| ==> (o.result.isOutOfSpace <==> Free(slots) < |data| - |slots[r].data|))
      && !(o.result.isOutOfRange && o.result.isOutOfSpace)
  {
  }

  /** A failed put changes nothing, so repeating it fails the same way. */
  lemma PutFailureIsStable(slots: seq<Slot>, data: seq<byte>, id: int)
    ensures var o := Put(slots, data, id);
      !o.result.IsOk() ==> o.slots == slots && Put(o.slots, data, id) == o
  {
  }

  /** A put touches only its target slot: ids stay gap-free and every other slot is kept. */
  lemma PutKeepsOthers(slots: seq<Slot>, data: seq<byte>, id: int)
    ensures var o := Put(slots, data, id); var r := Target(slots, id);
      && |o.slots| == (if o.result.IsOk() && r == |slots| then |slots| + 1 else |slots|)
      && forall j :: 0 <= j < |slots| && j != r ==> o.slots[j] == slots[j]
  {
  }

  /** Free space falls by exactly what a successful put adds, and never goes negative. */
  lemma PutFree(slots: seq<Slot>, data: seq<byte>, id: int)
    requires Free(slots) >= 0
    ensures var o := Put(slots, data, id); var r := Target(slots, id);
      && (o.result.IsOk() && r == |slots| ==> Free(o.slots) == Free(slots) - |data| - ENTRY_SIZE)
      && (o.result.IsOk() && r < |slots| ==> Free(o.slots) == Free(slots) - (|data| - |slots[r].data|))
      && (!o.result.IsOk() ==> Free(o.slots) == Free(slots))
      && Free(o.slots) >= 0
  {
    var o := Put(slots, data, id);
    var r := Target(slots, id);
    if o.result.IsOk() {
      if r == |slots| {
        TotalSizeAppend(slots, Slot(false, data));
      } else {
        TotalSizeUpdate(slots, r, Slot(false, data));
      }
    }
  }

  /** Deleting is idempotent, keeps every other slot and the bytes, and frees nothing. */
  lemma DeleteFacts(slots: seq<Slot>, id: int)
    ensures Delete(Delete(slots, id), id) == Delete(slots, id)
    ensures |Delete(slots, id)| == |slots|
    ensures forall j :: 0 <= j < |slots| ==>
      Delete(slots, id)[j].data == slots[j].data
      && Delete(slots, id)[j].deleted == (slots[j].deleted || j == id)
    ensures Free(Delete(slots, id)) == Free(slots)
  {
    if 0 <= id < |slots| {
      TotalSizeUpdate(slots, id, Slot(true, slots[id].data));
    }
  }

  /** A deleted record reads back as deleted with no bytes. */
  lemma DeleteThenGet(slots: seq<Slot>, id: int)
    requires 0 <= id < |slots|
    ensures Get(Delete(slots, id), id) == GetRecordResult([], true, false)
  {
  }

  /**
   * `allRecords` has exactly the keys `0 .. |slots| - 1`, never reports out of range, flags
   * tombstones but still carries their bytes, and agrees with `getRecord` on live slots.
   */
  lemma AllRecordsFacts(slots: seq<Slot>)
    ensures forall i :: i in AllRecords(slots) <==> 0 <= i < |slots|
    ensures forall i :: i in AllRecords(slots) ==>
      && !AllRecords(slots)[i].isOutOfRange
      && AllRecords(slots)[i].isDeleted == slots[i].deleted
      && AllRecords(slots)[i].bytes == slots[i].data
      && (!slots[i].deleted ==> AllRecords(slots)[i] == Get(slots, i))
  {
  }

  // ===========================================================================
  // The byte images implement the slot-list operations
  // ===========================================================================

  /** The image `putRecord` leaves, by case, with the corrected append test. */
  ghost function PutImage(s: seq<byte>, d: int, data: seq<byte>, id: int): (u: seq<byte>)
    requires Wellformed(s, d)
    ensures |u| == PAGE_SIZE
  {
    var r := if id == -1 then d else id;
    if r < 0 || r > d then s
    else if r == d then
      if AppendFits(d, AreaStart(s, d), |data|) then
        AppendCorrect(s, d, data);
        AppendImage(s, d, AreaStart(s, d), data)
      else s
    else if UpdateFits(Directory(s, d), r, |data|) then UpdateImage(s, d, r, data)
    else s
  }

  /** On a consistent page, `freeSpace` is the free space of its slots. */
  lemma FreeOfImage(s: seq<byte>, d: int)
    requires Wellformed(s, d)
    ensures FreeSpace(d, AreaStart(s, d)) == Free(Slots(s, d)) >= 0
    ensures forall r :: 0 <= r < d ==> Capacity(Directory(s, d), r) == |Slots(s, d)[r].data|
  {
    FreeSpaceAccounting(s, Directory(s, d));
  }

  /** A consistent page's record area is as long as its records. */
  lemma AreaOfImage(s: seq<byte>, d: int)
    requires Wellformed(s, d)
    ensures AreaStart(s, d) == PAGE_SIZE - TotalSize(Slots(s, d))
  {
    AreaHoldsRecords(s, Directory(s, d));
  }

  /** The image `u` is a consistent page holding exactly `slots`, its header counting them. */
  ghost predicate Holds(u: seq<byte>, slots: seq<Slot>) {
    Wellformed(u, |slots|) && Header(u) == |slots| && Slots(u, |slots|) == slots
  }

  /** An append that passes the test holds the old slots and the new record. */
  lemma AppendHolds(s: seq<byte>, d: int, data: seq<byte>)
    requires Wellformed(s, d) && Header(s) == d && AppendFits(d, AreaStart(s, d), |data|)
    ensures DirSized(d + 1) && 0 <= AreaStart(s, d) - |data|
    ensures Holds(AppendImage(s, d, AreaStart(s, d), data), Slots(s, d) + [Slot(false, data)])
  {
    AppendCorrect(s, d, data);
  }

  /** A rewrite that passes the test holds the old slots with slot `r` replaced, live. */
  lemma UpdateHolds(s: seq<byte>, d: int, r: int, data: seq<byte>)
    requires Wellformed(s, d) && Header(s) == d && 0 <= r < d && UpdateFits(Directory(s, d), r, |data|)
    ensures Holds(UpdateImage(s, d, r, data), Slots(s, d)[r := Slot(false, data)])
  {
    UpdateCorrect(s, d, r, data);
  }

  /**
   * `putRecord` on the bytes does what `Put` says on the slots, and the page stays
   * consistent with its header counting the slots.
   */
  lemma PutImageCorrect(s: seq<byte>, d: int, data: seq<byte>, id: int)
    requires Wellformed(s, d) && Header(s) == d
    ensures Holds(PutImage(s, d, data, id), Put(Slots(s, d), data, id).slots)
  {
    var slots := Slots(s, d);
    var r := if id == -1 then d else id;
    FreeOfImage(s, d);
    if 0 <= r < d && UpdateFits(Directory(s, d), r, |data|) {
      UpdateHolds(s, d, r, data);
      assert Put(slots, data, id).slots == slots[r := Slot(false, data)];
    } else if r == d && AppendFits(d, AreaStart(s, d), |data|) {
      AppendHolds(s, d, data);
      assert Put(slots, data, id).slots == slots + [Slot(false, data)];
    } else {
      assert PutImage(s, d, data, id) == s && Put(slots, data, id).slots == slots;
    }
  }

  /** A page image `s` whose directory has `d` entries and whose record area starts at `last`. */
  ghost predicate Mirrors(s: seq<byte>, d: int, last: int) {
    Wellformed(s, d) && Header(s) == d && last == AreaStart(s, d)
  }

  /** `deleteRecord` keeps a mirrored image mirrored and deletes on the slots. */
  lemma DeleteMirrors(s: seq<byte>, d: int, last: int, id: int)
    requires Mirrors(s, d, last)
    ensures Mirrors(DeleteImage(s, d, id), d, last)
    ensures Slots(DeleteImage(s, d, id), d) == Delete(Slots(s, d), id)
  {
    DeleteCorrect(s, d, id);
  }

  /** An append that passes the test keeps a mirrored image mirrored, with one more slot. */
  lemma AppendMirrors(s: seq<byte>, d: int, last: int, data: seq<byte>)
    requires Mirrors(s, d, last) && AppendFits(d, last, |data|)
    ensures DirSized(d + 1) && 0 <= last - |data|
    ensures Mirrors(AppendImage(s, d, last, data), d + 1, last - |data|)
  {
    AppendCorrect(s, d, data);
  }

  /** A rewrite that passes the test keeps a mirrored image mirrored, the area moved by `req`. */
  lemma UpdateMirrors(s: seq<byte>, d: int, last: int, r: int, data: seq<byte>)
    requires Mirrors(s, d, last) && 0 <= r < d && UpdateFits(Directory(s, d), r, |data|)
    ensures Mirrors(UpdateImage(s, d, r, data), d, last - Required(Directory(s, d), r, |data|))
  {
    UpdateCorrect(s, d, r, data);
  }

  /** `deleteRecord` on the bytes does what `Delete` says on the slots. */
  lemma DeleteImageCorrect(s: seq<byte>, d: int, id: int)
    requires Wellformed(s, d) && Header(s) == d
    ensures var u := DeleteImage(s, d, id);
      Wellformed(u, d) && Header(u) == d && AreaStart(u, d) == AreaStart(s, d)
      && Slots(u, d) == Delete(Slots(s, d), id)
  {
    DeleteCorrect(s, d, id);
  }

  /** `getRecord` on the bytes: the slice through entry `id` and its predecessor. */
  lemma GetImageCorrect(s: seq<byte>, d: int, id: int)
    requires Wellformed(s, d) && 0 <= id < d
    ensures SlotInBounds(s, id)
    ensures Get(Slots(s, d), id) == (if SlotAt(s, id).deleted then GetRecordResult([], true, false)
                                      else GetRecordResult(SlotAt(s, id).data, false, false))
  {
    SlotAtIsSlot(s, d, id);
  }
}
