/**
 * `DiskPageImpl`: a 4096-byte array in the slotted format, together with the two fields
 * the class keeps beside it, `directorySize` (mirrored in the header) and
 * `lastRecordOffset` (where the record area starts). Every operation is proved to do on
 * the bytes what the slotted format prescribes and, on the slots, what `PageModel`
 * says.
 */
module DiskPages {
  import opened Bytes
  import opened StorageApi
  import opened PageLayout
  import opened PageModel

  /** `ByteBuffer.put(at, data)` on a byte array. */
  method PutBytes(a: array<byte>, at: int, data: seq<byte>)
    requires 0 <= at && at + |data| <= a.Length
    modifies a
    ensures a[..] == Splice(old(a[..]), at, data)
  {
    ghost var s := a[..];
    var i := 0;
    while i < |data|
      invariant 0 <= i <= |data|
      invariant forall k :: 0 <= k < a.Length ==> a[k] == if at <= k < at + i then data[k - at] else s[k]
    {
      a[at + i] := data[i];
      i := i + 1;
    }
    assert a[..] == Splice(s, at, data);
  }

  /** `ByteBuffer.putInt(p, v)` on a byte array. */
  method PutInt(a: array<byte>, p: int, v: int)
    requires 0 <= p && p + 4 <= a.Length && IsInt32(v)
    modifies a
    ensures a[..] == WriteInt32(old(a[..]), p, v)
  {
    PutBytes(a, p, EncodeInt32(v));
  }

  /** A fresh, all-zero page has an empty directory. */
  lemma ZeroPage(s: seq<byte>)
    requires |s| == PAGE_SIZE && forall k :: 0 <= k < |s| ==> s[k] == 0
    ensures Header(s) == 0 && Wellformed(s, 0) && AreaStart(s, 0) == PAGE_SIZE && Slots(s, 0) == []
  {
    BigEndianZeros(s[0..4][..4]);
  }

  /** The image `deleteRecord` leaves, given as `t`, is mirrored and shows the slots with `id` deleted. */
  lemma DeletedMirrors(s: seq<byte>, d: int, last: int, id: int, t: seq<byte>)
    requires Mirrors(s, d, last) && t == DeleteImage(s, d, id)
    ensures Mirrors(t, d, last) && Slots(t, d) == Delete(Slots(s, d), id)
  {
    DeleteMirrors(s, d, last, id);
  }

  /**
   * A page rebuilt as written keeps its directory but starts its record area at the page
   * end, so the next append writes its record over the end of record 0: record 0 reads back
   * different bytes although only a new record was added.
   */
  lemma RebuiltAppendOverwrites(s: seq<byte>, d: int, data: seq<byte>)
    requires Wellformed(s, d) && Header(s) == d && 1 <= d
    requires AppendFits(d, PAGE_SIZE, |data|) && 1 <= |data|
    requires Abs(Entry(s, 0)) < PAGE_SIZE && data[|data| - 1] != s[PAGE_SIZE - 1]
    ensures SlotInBounds(s, 0) && DirSized(d + 1)
    ensures var u := AppendImage(s, d, PAGE_SIZE, data);
      SlotInBounds(u, 0) && SlotAt(u, 0) != SlotAt(s, 0)
  {
    SlotAtIsSlot(s, d, 0);
    var u := AppendImage(s, d, PAGE_SIZE, data);
    AppendDirectory(s, d, PAGE_SIZE, data);
    AppendRecordArea(s, d, PAGE_SIZE, data);
    DirectoryIndex(u, d + 1, 0);
    DirectoryIndex(s, d, 0);
    assert Entry(u, 0) == Entry(s, 0);
    var start := Abs(Entry(s, 0));
    assert u[PAGE_SIZE - |data|..PAGE_SIZE][|data| - 1] == u[PAGE_SIZE - 1];
    assert SlotAt(u, 0).data[PAGE_SIZE - 1 - start] == u[PAGE_SIZE - 1];
    assert SlotAt(s, 0).data[PAGE_SIZE - 1 - start] == s[PAGE_SIZE - 1];
  }

  class DiskPage {
    const id: int
    const bytes: array<byte>
    var directorySize: int
    var lastRecordOffset: int

    /** The page invariant: a consistent image whose header and record area the fields mirror. */
    ghost predicate Valid()
      reads this, bytes
    {
      bytes.Length == PAGE_SIZE && Mirrors(bytes[..], directorySize, lastRecordOffset)
    }

    /** The page's slots, in id order. */
    ghost function Records(): seq<Slot>
      reads this, bytes
      requires Valid()
    {
      Slots(bytes[..], directorySize)
    }

    /** `DiskPageImpl(id, pageSize)`: a zeroed array, whose header says the directory is empty. */
    constructor (id: int)
      ensures Valid() && this.id == id && Records() == [] && fresh(bytes)
    {
      var b := new byte[PAGE_SIZE](_ => 0);
      ZeroPage(b[..]);
      this.id := id;
      bytes := b;
      directorySize := Header(b[..]);
      lastRecordOffset := PAGE_SIZE;
    }

    /**
     * `DiskPageImpl(id, pageSize, raw)` over the bytes of an existing page, sharing the array.
     * The directory size comes from the header and the record area start from the last
     * directory entry (the constructor as written keeps `pageSize`; see `RebuiltAsWritten`).
     */
    constructor Rebuilt(id: int, raw: array<byte>)
      requires raw.Length == PAGE_SIZE && Wellformed(raw[..], Header(raw[..]))
      ensures Valid() && this.id == id && bytes == raw && directorySize == Header(raw[..])
      ensures Records() == Slots(raw[..], Header(raw[..]))
    {
      this.id := id;
      bytes := raw;
      directorySize := Header(raw[..]);
      lastRecordOffset := AreaStart(raw[..], Header(raw[..]));
    }

    /** The constructor over existing bytes as written: the record area start is reset to the page end. */
    constructor RebuiltAsWritten(id: int, raw: array<byte>)
      requires raw.Length == PAGE_SIZE
      ensures this.id == id && bytes == raw && directorySize == Header(raw[..])
      ensures lastRecordOffset == PAGE_SIZE
    {
      this.id := id;
      bytes := raw;
      directorySize := Header(raw[..]);
      lastRecordOffset := PAGE_SIZE;
    }

    /** `freeSpace`: what the directory and the records leave of the page. */
    function FreeSpace(): (r: int)
      reads this, bytes
      requires Valid()
      ensures r == Free(Records()) && r >= 0
    {
      FreeOfImage(bytes[..], directorySize);
      PageLayout.FreeSpace(directorySize, lastRecordOffset)
    }

    /** The `directorySize` setter: the field and the header together. */
    method SetDirectorySize(v: int)
      requires bytes.Length == PAGE_SIZE && IsInt32(v)
      modifies this, bytes
      ensures directorySize == v && lastRecordOffset == old(lastRecordOffset)
      ensures bytes[..] == WriteInt32(old(bytes[..]), 0, v)
    {
      directorySize := v;
      PutInt(bytes, 0, v);
    }

    /** `getRecord(recordId)`. */
    method GetRecord(recordId: int) returns (r: GetRecordResult)
      requires Valid()
      ensures r == Get(Records(), recordId)
    {
      if recordId < 0 || recordId >= directorySize {
        r := GetRecordResult([], false, true);
      } else {
        GetImageCorrect(bytes[..], directorySize, recordId);
        var buffer := SlotAt(bytes[..], recordId);
        if buffer.deleted {
          r := GetRecordResult([], true, false);
        } else {
          r := GetRecordResult(buffer.data, false, false);
        }
      }
    }

    /** `allRecords()`: every slot, tombstones included, with its bytes. */
    method AllRecords() returns (m: map<int, GetRecordResult>)
      requires Valid()
      ensures m == PageModel.AllRecords(Records())
    {
      m := map[];
      var i := 0;
      while i < directorySize
        invariant 0 <= i <= directorySize
        invariant m == map j | 0 <= j < i :: Report(Records()[j])
      {
        SlotAtIsSlot(bytes[..], directorySize, i);
        var buffer := SlotAt(bytes[..], i);
        m := m[i := GetRecordResult(buffer.data, buffer.deleted, false)];
        i := i + 1;
      }
    }

    /** `deleteRecord(recordId)`: a positive entry in range is negated. */
    method DeleteRecord(recordId: int)
      requires Valid()
      modifies bytes
      ensures Valid() && Records() == Delete(old(Records()), recordId)
      ensures bytes[..] == DeleteImage(old(bytes[..]), directorySize, recordId)
    {
      ghost var s := bytes[..];
      if 0 <= recordId < directorySize {
        var recordOffset := Entry(bytes[..], recordId);
        if recordOffset > 0 {
          PutInt(bytes, EntryPos(recordId), -recordOffset);
        }
      }
      DeletedMirrors(s, directorySize, lastRecordOffset, recordId, bytes[..]);
    }

    /** The append branch of `putRecord`: entry, record bytes, record area start, header. */
    method AppendRecord(recordData: seq<byte>)
      requires Valid() && AppendFits(directorySize, lastRecordOffset, |recordData|)
      modifies this, bytes
      ensures Valid() && directorySize == old(directorySize) + 1
      ensures bytes[..] == AppendImage(old(bytes[..]), old(directorySize), old(lastRecordOffset), recordData)
    {
      ghost var s := bytes[..];
      AppendMirrors(s, directorySize, lastRecordOffset, recordData);
      var newLastRecordOffset := lastRecordOffset - |recordData|;
      PutInt(bytes, EntryPos(directorySize), newLastRecordOffset);
      PutBytes(bytes, newLastRecordOffset, recordData);
      lastRecordOffset := newLastRecordOffset;
      SetDirectorySize(directorySize + 1);
      assert bytes[..] == AppendImage(s, old(directorySize), old(lastRecordOffset), recordData);
    }

    /**
     * `shiftRecords(startRecordId, requiredSpace)`: the record bytes between the record area
     * start and record `startRecordId` move `requiredSpace` bytes lower, a freed gap is
     * zeroed, and the directory entries from `startRecordId` on follow the move.
     */
    method ShiftRecords(startRecordId: int, requiredSpace: int)
      requires bytes.Length == PAGE_SIZE
      requires ShiftOk(bytes[..], directorySize, lastRecordOffset, startRecordId, requiredSpace)
      modifies this, bytes
      ensures directorySize == old(directorySize) && lastRecordOffset == old(lastRecordOffset) - requiredSpace
      ensures bytes[..] == ShiftImage(old(bytes[..]), directorySize, old(lastRecordOffset), startRecordId, requiredSpace)
    {
      if requiredSpace == 0 {
        return;
      }
      ghost var s := bytes[..];
      var startRecordOffset := Abs(Entry(bytes[..], startRecordId));
      MoveRecordBytes(lastRecordOffset, startRecordOffset, requiredSpace);
      ghost var c := bytes[..];
      assert c == ShiftedArea(s, directorySize, lastRecordOffset, startRecordId, requiredSpace);
      ShiftEntriesFrom(startRecordId, requiredSpace);
      ShiftImageOf(s, directorySize, lastRecordOffset, startRecordId, requiredSpace, c, bytes[..]);
      lastRecordOffset := lastRecordOffset - requiredSpace;
    }

    /** The byte copy of `shiftRecords`, through a copy of the moved bytes, and the zero fill. */
    method MoveRecordBytes(last: int, start: int, requiredSpace: int)
      requires bytes.Length == PAGE_SIZE && 0 <= last <= start && 0 <= last - requiredSpace
      requires start - requiredSpace <= PAGE_SIZE && start <= PAGE_SIZE
      modifies bytes
      ensures var moved := Splice(old(bytes[..]), last - requiredSpace, old(bytes[..])[last..start]);
        bytes[..] == if requiredSpace < 0 then Splice(moved, last, Zeros(-requiredSpace)) else moved
    {
      var shiftedBytes := bytes[last..start];
      PutBytes(bytes, last - requiredSpace, shiftedBytes);
      if requiredSpace < 0 {
        PutBytes(bytes, last, Zeros(-requiredSpace));
      }
    }

    /** The directory loop of `shiftRecords`: each entry from `from` on keeps its sign and moves. */
    method ShiftEntriesFrom(from: int, requiredSpace: int)
      requires bytes.Length == PAGE_SIZE && 0 <= from <= directorySize && DirSized(directorySize)
      modifies bytes
      ensures bytes[..] == ShiftEntries(old(bytes[..]), from, directorySize, requiredSpace)
    {
      ghost var c := bytes[..];
      var i := from;
      while i < directorySize
        invariant from <= i <= directorySize
        invariant bytes[..] == ShiftEntries(c, from, i, requiredSpace)
      {
        var offset := Entry(bytes[..], i);
        PutInt(bytes, EntryPos(i), ShiftedEntry(offset, requiredSpace));
        i := i + 1;
      }
    }

    /** The update branch of `putRecord` once the free-space test passed: shift, then write. */
    method RewriteRecord(recordId: int, requiredSpace: int, recordData: seq<byte>)
      requires Valid() && 0 <= recordId < directorySize
      requires requiredSpace == Required(Directory(bytes[..], directorySize), recordId, |recordData|)
      requires UpdateFits(Directory(bytes[..], directorySize), recordId, |recordData|)
      modifies this, bytes
      ensures Valid() && directorySize == old(directorySize)
      ensures bytes[..] == UpdateImage(old(bytes[..]), directorySize, recordId, recordData)
    {
      ghost var s := bytes[..];
      ShiftedCapacity(s, directorySize, recordId, |recordData|);
      ShiftedStart(s, directorySize, recordId, |recordData|);
      UpdateMirrors(s, directorySize, lastRecordOffset, recordId, recordData);
      ShiftRecords(recordId, requiredSpace);
      ghost var t := bytes[..];
      DirectoryIndex(t, directorySize, recordId);
      var arrayOffset := Abs(Entry(bytes[..], recordId));
      // `assert(newBytes.first.capacity() == recordData.size)`
      assert EndOf(Directory(t, directorySize), recordId) - arrayOffset == |recordData|;
      PutBytes(bytes, arrayOffset, recordData);
      PutInt(bytes, EntryPos(recordId), arrayOffset);
      assert bytes[..] == RewriteSlot(t, recordId, recordData);
    }

    /**
     * `putRecord(recordData, recordId)`, with the append test corrected to require room for
     * the record and its directory entry (as written: `recordData.size > freeSpace + 4` fails).
     */
    method PutRecord(recordData: seq<byte>, recordId_: int) returns (r: PutRecordResult)
      requires Valid()
      modifies this, bytes
      ensures Valid() && Holds(bytes[..], Records())
      ensures r == Put(old(Records()), recordData, recordId_).result
      ensures Records() == Put(old(Records()), recordData, recordId_).slots
      ensures bytes[..] == PutImage(old(bytes[..]), old(directorySize), recordData, recordId_)
    {
      ghost var s := bytes[..];
      ghost var d := directorySize;
      PutImageCorrect(s, d, recordData, recordId_);
      FreeOfImage(s, d);
      var recordId := if recordId_ == -1 then directorySize else recordId_;
      if recordId < 0 || recordId > directorySize {
        r := PutRecordResult(recordId, false, true);
      } else if recordId == directorySize {
        if |recordData| + ENTRY_SIZE > FreeSpace() {
          r := PutRecordResult(recordId, true, false);
        } else {
          AppendRecord(recordData);
          r := PutRecordResult(recordId, false, false);
        }
      } else {
        SlotAtIsSlot(s, d, recordId);
        var capacity := |SlotAt(bytes[..], recordId).data|;
        var requiredSpace := |recordData| - capacity;
        if FreeSpace() < requiredSpace {
          r := PutRecordResult(recordId, true, false);
        } else {
          RewriteRecord(recordId, requiredSpace, recordData);
          r := PutRecordResult(recordId, false, false);
        }
      }
    }
  }
}
