/**
 * The slotted-page format of `DiskPageImpl`, as pure functions over a 4096-byte image.
 *
 * Bytes 0..4 hold the directory size `d` (the header). Directory entry `i` is the
 * 32-bit value at bytes `4 + 4*i`; its magnitude is where record `i` starts, and a
 * negative sign marks a deleted record (a tombstone). Record 0 ends at the end of the
 * page and record `i` ends where record `i - 1` starts, so records grow from the end of
 * the page towards the directory.
 *
 * The file has three layers: the decoded directory as a sequence of integers and the
 * slots it describes; the byte images and how each page operation rewrites them; and
 * lemmas connecting the two, one per operation.
 */
module PageLayout {
  import opened Bytes

  const PAGE_SIZE: int := 4096      // DEFAULT_DISK_PAGE_SIZE
  const DIRECTORY_START: int := 4   // directoryStartOffset, one Int for the header
  const ENTRY_SIZE: int := 4        // one Int per directory entry

  /** Byte position of directory entry `i`. */
  function EntryPos(i: int): int {
    DIRECTORY_START + ENTRY_SIZE * i
  }

  /** A directory of `d` entries fits in the page. */
  predicate DirSized(d: int) {
    0 <= d && EntryPos(d) <= PAGE_SIZE
  }

  /** `freeSpace`: the bytes between a `d`-entry directory and a record area starting at `last`. */
  function FreeSpace(d: int, last: int): int {
    last - ENTRY_SIZE * d - DIRECTORY_START
  }

  /** One directory slot, seen from outside: its tombstone flag and its bytes. */
  datatype Slot = Slot(deleted: bool, data: seq<byte>)

  /** Total size of the stored records, tombstones included. */
  function TotalSize(slots: seq<Slot>): nat {
    if |slots| == 0 then 0 else TotalSize(slots[..|slots| - 1]) + |slots[|slots| - 1].data|
  }

  // ===========================================================================
  // The decoded directory and the slots it describes
  // ===========================================================================

  /** Where record `i` starts. */
  function StartOf(dir: seq<int>, i: int): nat
    requires 0 <= i < |dir|
  {
    Abs(dir[i])
  }

  /** Where record `i` ends: the page end for record 0, else where record `i - 1` starts. */
  function EndOf(dir: seq<int>, i: int): nat
    requires 0 <= i < |dir|
  {
    if i == 0 then PAGE_SIZE else Abs(dir[i - 1])
  }

  /** Record `i` lies between the end of the directory and the end of the page. */
  ghost predicate SlotFits(dir: seq<int>, i: int) {
    0 <= i < |dir| && EntryPos(|dir|) <= StartOf(dir, i) <= EndOf(dir, i) <= PAGE_SIZE
  }

  /** A consistent directory: every record lies inside the record area, in directory order. */
  ghost predicate DirFits(dir: seq<int>) {
    DirSized(|dir|) && forall i :: 0 <= i < |dir| ==> SlotFits(dir, i)
  }

  /** Where the record area begins (`lastRecordOffset` of a consistent page). */
  function AreaStartOf(dir: seq<int>): (r: int)
    ensures DirFits(dir) ==> EntryPos(|dir|) <= r <= PAGE_SIZE
  {
    if |dir| == 0 then PAGE_SIZE else assert DirFits(dir) ==> SlotFits(dir, |dir| - 1); Abs(dir[|dir| - 1])
  }

  /** Record `i` of an image, read through the directory `dir`. */
  function SlotOf(s: seq<byte>, dir: seq<int>, i: int): Slot
    requires 0 <= i < |dir| && StartOf(dir, i) <= EndOf(dir, i) <= |s|
  {
    Slot(dir[i] < 0, s[StartOf(dir, i)..EndOf(dir, i)])
  }

  /** All records of an image, in directory order. */
  ghost function SlotsOf(s: seq<byte>, dir: seq<int>): (r: seq<Slot>)
    requires |s| == PAGE_SIZE && DirFits(dir)
    ensures |r| == |dir|
    ensures forall i :: 0 <= i < |dir| ==> SlotFits(dir, i) && r[i] == SlotOf(s, dir, i)
  {
    seq(|dir|, i requires 0 <= i < |dir| && |s| == PAGE_SIZE && DirFits(dir) =>
      assert SlotFits(dir, i); SlotOf(s, dir, i))
  }

  /** Two slot lists agree when they agree slot by slot. */
  lemma SlotsOfByParts(s: seq<byte>, dir: seq<int>, expected: seq<Slot>)
    requires |s| == PAGE_SIZE && DirFits(dir) && |expected| == |dir|
    requires forall i :: 0 <= i < |dir| ==> SlotFits(dir, i) && SlotOf(s, dir, i) == expected[i]
    ensures SlotsOf(s, dir) == expected
  {
  }

  /** A later record lies entirely below an earlier one. */
  lemma {:induction false} LaterBelow(dir: seq<int>, i: int, j: int)
    requires DirFits(dir) && 0 <= i < j < |dir|
    ensures EndOf(dir, j) <= StartOf(dir, i)
    decreases j - i
  {
    assert SlotFits(dir, j - 1);
    if j > i + 1 {
      LaterBelow(dir, i, j - 1);
    }
  }

  /** Every record starts at or above the record area start. */
  lemma AboveAreaStart(dir: seq<int>, i: int)
    requires DirFits(dir) && 0 <= i < |dir|
    ensures AreaStartOf(dir) <= StartOf(dir, i)
  {
    assert SlotFits(dir, i) && SlotFits(dir, |dir| - 1);
    if i < |dir| - 1 {
      LaterBelow(dir, i, |dir| - 1);
    }
  }

  /** Dropping the last entry leaves a consistent directory describing the first records. */
  lemma DropLast(s: seq<byte>, dir: seq<int>)
    requires |s| == PAGE_SIZE && DirFits(dir) && |dir| > 0
    ensures DirFits(dir[..|dir| - 1])
    ensures SlotsOf(s, dir)[..|dir| - 1] == SlotsOf(s, dir[..|dir| - 1])
  {
    var p := dir[..|dir| - 1];
    forall i | 0 <= i < |p|
      ensures SlotFits(p, i) && SlotOf(s, p, i) == SlotOf(s, dir, i)
    {
      assert SlotFits(dir, i);
    }
  }

  /** The records tile the record area exactly: their sizes add up to its length. */
  lemma {:induction false} AreaHoldsRecords(s: seq<byte>, dir: seq<int>)
    requires |s| == PAGE_SIZE && DirFits(dir)
    ensures TotalSize(SlotsOf(s, dir)) == PAGE_SIZE - AreaStartOf(dir)
    decreases |dir|
  {
    var n := |dir|;
    if n > 0 {
      var p := dir[..n - 1];
      DropLast(s, dir);
      AreaHoldsRecords(s, p);
      assert SlotFits(dir, n - 1);
      assert EndOf(dir, n - 1) == AreaStartOf(p);
      assert |SlotsOf(s, dir)[n - 1].data| == EndOf(dir, n - 1) - StartOf(dir, n - 1);
    }
  }

  /** On a consistent page, free space is what the directory and the records leave of the page. */
  lemma FreeSpaceAccounting(s: seq<byte>, dir: seq<int>)
    requires |s| == PAGE_SIZE && DirFits(dir)
    ensures FreeSpace(|dir|, AreaStartOf(dir))
         == PAGE_SIZE - DIRECTORY_START - ENTRY_SIZE * |dir| - TotalSize(SlotsOf(s, dir))
    ensures FreeSpace(|dir|, AreaStartOf(dir)) >= 0
  {
    AreaHoldsRecords(s, dir);
  }

  lemma TotalSizeAppend(slots: seq<Slot>, x: Slot)
    ensures TotalSize(slots + [x]) == TotalSize(slots) + |x.data|
  {
    assert (slots + [x])[..|slots|] == slots;
  }

  lemma {:induction false} TotalSizeUpdate(slots: seq<Slot>, i: int, x: Slot)
    requires 0 <= i < |slots|
    ensures TotalSize(slots[i := x]) == TotalSize(slots) - |slots[i].data| + |x.data|
    decreases |slots|
  {
    var n := |slots|;
    if i < n - 1 {
      assert slots[i := x][..n - 1] == slots[..n - 1][i := x];
      TotalSizeUpdate(slots[..n - 1], i, x);
    } else {
      assert slots[i := x][..n - 1] == slots[..n - 1];
    }
  }

  // ===========================================================================
  // Byte images
  // ===========================================================================

  predicate HasEntry(s: seq<byte>, i: int) {
    0 <= i && EntryPos(i) + ENTRY_SIZE <= |s|
  }

  /** The directory size stored in the header. */
  function Header(s: seq<byte>): int
    requires |s| >= 4
  {
    Int32At(s, 0)
  }

  /** Directory entry `i` (`getDirectoryEntry`). */
  function Entry(s: seq<byte>, i: int): int
    requires HasEntry(s, i)
  {
    Int32At(s, EntryPos(i))
  }

  /** The first `d` directory entries of an image, decoded. */
  function Directory(s: seq<byte>, d: int): (dir: seq<int>)
    requires |s| == PAGE_SIZE && DirSized(d)
    ensures |dir| == d
    decreases d
  {
    if d == 0 then [] else Directory(s, d - 1) + [Entry(s, d - 1)]
  }

  /** Entry `i` of the decoded directory is the `i`-th directory entry of the image. */
  lemma {:induction false} DirectoryIndex(s: seq<byte>, d: int, i: int)
    requires |s| == PAGE_SIZE && DirSized(d) && 0 <= i < d
    ensures HasEntry(s, i) && Directory(s, d)[i] == Entry(s, i)
    decreases d
  {
    if i < d - 1 {
      DirectoryIndex(s, d - 1, i);
    }
  }

  /** A well-formed image with `d` directory entries. */
  ghost predicate Wellformed(s: seq<byte>, d: int) {
    |s| == PAGE_SIZE && DirSized(d) && DirFits(Directory(s, d))
  }

  /** Where the record area of an image begins. */
  function AreaStart(s: seq<byte>, d: int): int
    requires |s| == PAGE_SIZE && DirSized(d)
  {
    AreaStartOf(Directory(s, d))
  }

  /** The abstract contents of a well-formed image: its slots in directory order. */
  ghost function Slots(s: seq<byte>, d: int): seq<Slot>
    requires Wellformed(s, d)
  {
    SlotsOf(s, Directory(s, d))
  }

  predicate SlotInBounds(s: seq<byte>, i: int) {
    HasEntry(s, i)
    && Abs(Entry(s, i)) <= (if i == 0 then PAGE_SIZE else Abs(Entry(s, i - 1))) <= |s|
  }

  /** `getByteBuffer`: the slice of record `i` and whether its entry is negative. */
  function SlotAt(s: seq<byte>, i: int): Slot
    requires SlotInBounds(s, i)
  {
    var start := Abs(Entry(s, i));
    var end := if i == 0 then PAGE_SIZE else Abs(Entry(s, i - 1));
    Slot(Entry(s, i) < 0, s[start..end])
  }

  /** Reading one record through its own and its predecessor's entry gives the abstract slot. */
  lemma SlotAtIsSlot(s: seq<byte>, d: int, i: int)
    requires Wellformed(s, d) && 0 <= i < d
    ensures SlotInBounds(s, i) && SlotAt(s, i) == Slots(s, d)[i]
  {
    assert SlotFits(Directory(s, d), i);
    DirectoryIndex(s, d, i);
    if i > 0 {
      DirectoryIndex(s, d, i - 1);
    }
  }

  // ---------------------------------------------------------------------------
  // Framing helpers
  // ---------------------------------------------------------------------------

  /** `s` and `t` hold the same bytes at positions `lo .. hi`. */
  ghost predicate Agree(s: seq<byte>, t: seq<byte>, lo: int, hi: int) {
    forall k :: lo <= k < hi && 0 <= k < |s| && k < |t| ==> s[k] == t[k]
  }

  lemma AgreeTrans(s: seq<byte>, t: seq<byte>, u: seq<byte>, lo: int, hi: int)
    requires |s| == |t| == |u| && Agree(s, t, lo, hi) && Agree(t, u, lo, hi)
    ensures Agree(s, u, lo, hi)
  {
  }

  lemma Int32AtSame(s: seq<byte>, t: seq<byte>, p: int)
    requires 0 <= p && p + 4 <= |s| && p + 4 <= |t|
    requires s[p] == t[p] && s[p + 1] == t[p + 1] && s[p + 2] == t[p + 2] && s[p + 3] == t[p + 3]
    ensures Int32At(s, p) == Int32At(t, p)
  {
    assert s[p..p + 4] == t[p..p + 4];
  }

  lemma SliceSame(s: seq<byte>, t: seq<byte>, a: int, b: int, delta: int)
    requires 0 <= a <= b <= |s| && 0 <= a + delta && b + delta <= |t|
    requires forall k :: a <= k < b ==> s[k] == t[k + delta]
    ensures s[a..b] == t[a + delta..b + delta]
  {
    assert forall k :: 0 <= k < b - a ==> s[a..b][k] == t[a + delta..b + delta][k] by {
      forall k | 0 <= k < b - a
        ensures s[a..b][k] == t[a + delta..b + delta][k]
      {
        assert s[a..b][k] == s[a + k];
        assert t[a + delta..b + delta][k] == t[a + k + delta];
      }
    }
  }

  /** A bulk write leaves the bytes outside its range alone. */
  lemma SpliceElsewhere(s: seq<byte>, at: int, data: seq<byte>, lo: int, hi: int)
    requires 0 <= at && at + |data| <= |s| && (hi <= at || at + |data| <= lo)
    ensures Agree(Splice(s, at, data), s, lo, hi)
  {
  }

  /** A bulk write puts its data where it was asked to. */
  lemma SpliceWritten(s: seq<byte>, at: int, data: seq<byte>)
    requires 0 <= at && at + |data| <= |s|
    ensures Splice(s, at, data)[at..at + |data|] == data
  {
    SliceSame(Splice(s, at, data), data, at, at + |data|, -at);
    assert data[0..|data|] == data;
  }

  lemma Int32AtWritten(s: seq<byte>, p: int, v: int)
    requires 0 <= p && p + 4 <= |s| && IsInt32(v)
    ensures Int32At(WriteInt32(s, p, v), p) == v
    ensures Agree(WriteInt32(s, p, v), s, 0, p) && Agree(WriteInt32(s, p, v), s, p + 4, |s|)
  {
    Int32AtSplice(s, p, v);
    DecodeEncodeInt32(v);
  }

  /** Images that agree on the header bytes have the same header. */
  lemma HeaderSame(s: seq<byte>, t: seq<byte>)
    requires |s| >= 4 && |t| >= 4 && Agree(s, t, 0, 4)
    ensures Header(s) == Header(t)
  {
    Int32AtSame(s, t, 0);
  }

  /** Images that agree on the directory bytes have the same directory. */
  lemma DirectorySame(s: seq<byte>, t: seq<byte>, d: int)
    requires |s| == |t| == PAGE_SIZE && DirSized(d) && Agree(t, s, DIRECTORY_START, EntryPos(d))
    ensures Directory(t, d) == Directory(s, d)
  {
    forall i | 0 <= i < d
      ensures Directory(t, d)[i] == Directory(s, d)[i]
    {
      DirectoryIndex(s, d, i);
      DirectoryIndex(t, d, i);
      Int32AtSame(t, s, EntryPos(i));
    }
  }

  /** A bulk write above the directory leaves the directory alone. */
  lemma DirectoryAfterSplice(s: seq<byte>, d: int, at: int, data: seq<byte>)
    requires |s| == PAGE_SIZE && DirSized(d) && EntryPos(d) <= at && at + |data| <= PAGE_SIZE
    ensures Directory(Splice(s, at, data), d) == Directory(s, d)
  {
    SpliceElsewhere(s, at, data, DIRECTORY_START, EntryPos(d));
    DirectorySame(s, Splice(s, at, data), d);
  }

  /** Rewriting the header leaves the directory alone. */
  lemma DirectoryAfterHeader(s: seq<byte>, d: int, v: int)
    requires |s| == PAGE_SIZE && DirSized(d) && IsInt32(v)
    ensures Directory(WriteInt32(s, 0, v), d) == Directory(s, d)
  {
    Int32AtWritten(s, 0, v);
    DirectorySame(s, WriteInt32(s, 0, v), d);
  }

  /** Rewriting entry `r` of a `d`-entry directory changes that entry only. */
  lemma DirectoryAfterWrite(s: seq<byte>, d: int, r: int, v: int)
    requires |s| == PAGE_SIZE && DirSized(d) && 0 <= r < d && IsInt32(v)
    ensures Directory(WriteInt32(s, EntryPos(r), v), d) == Directory(s, d)[r := v]
    ensures Agree(WriteInt32(s, EntryPos(r), v), s, 0, EntryPos(r))
    ensures Agree(WriteInt32(s, EntryPos(r), v), s, EntryPos(r + 1), PAGE_SIZE)
  {
    var t := WriteInt32(s, EntryPos(r), v);
    Int32AtWritten(s, EntryPos(r), v);
    forall i | 0 <= i < d
      ensures Directory(t, d)[i] == Directory(s, d)[r := v][i]
    {
      DirectoryIndex(s, d, i);
      DirectoryIndex(t, d, i);
      if i != r {
        Int32AtSame(t, s, EntryPos(i));
      }
    }
  }

  /** Writing the entry just past a `d`-entry directory extends it by that entry. */
  lemma DirectoryAfterExtend(s: seq<byte>, d: int, v: int)
    requires |s| == PAGE_SIZE && DirSized(d + 1) && 0 <= d && IsInt32(v)
    ensures Directory(WriteInt32(s, EntryPos(d), v), d + 1) == Directory(s, d) + [v]
    ensures Agree(WriteInt32(s, EntryPos(d), v), s, 0, EntryPos(d))
    ensures Agree(WriteInt32(s, EntryPos(d), v), s, EntryPos(d + 1), PAGE_SIZE)
  {
    var t := WriteInt32(s, EntryPos(d), v);
    Int32AtWritten(s, EntryPos(d), v);
    forall i | 0 <= i < d + 1
      ensures Directory(t, d + 1)[i] == (Directory(s, d) + [v])[i]
    {
      DirectoryIndex(t, d + 1, i);
      if i < d {
        DirectoryIndex(s, d, i);
        Int32AtSame(t, s, EntryPos(i));
      }
    }
  }

  /** Records depend only on the bytes of the record area. */
  lemma SlotsOfSameArea(s: seq<byte>, t: seq<byte>, dir: seq<int>)
    requires |s| == |t| == PAGE_SIZE && DirFits(dir) && Agree(t, s, AreaStartOf(dir), PAGE_SIZE)
    ensures SlotsOf(t, dir) == SlotsOf(s, dir)
  {
    forall i | 0 <= i < |dir|
      ensures SlotFits(dir, i) && SlotOf(t, dir, i) == SlotsOf(s, dir)[i]
    {
      assert SlotFits(dir, i);
      AboveAreaStart(dir, i);
      SliceSame(t, s, StartOf(dir, i), EndOf(dir, i), 0);
    }
    SlotsOfByParts(t, dir, SlotsOf(s, dir));
  }

  // ===========================================================================
  // Appending a record (putRecord with recordId == directorySize)
  // ===========================================================================

  /** The free-space test guarding an append, as written: `size > freeSpace + Int.SIZE_BYTES` fails. */
  predicate AppendFitsAsWritten(d: int, last: int, size: int) {
    !(size > FreeSpace(d, last) + ENTRY_SIZE)
  }

  /** The free-space test an append needs: the record and its new directory entry both fit. */
  predicate AppendFits(d: int, last: int, size: int) {
    size + ENTRY_SIZE <= FreeSpace(d, last)
  }

  /**
   * The test as written lets through a record that overruns its own directory entry: on an
   * empty page a 4096-byte record passes it, and after the append the page is no longer
   * consistent and record 0 reads back bytes that differ from what was put.
   */
  lemma AppendGuardOverrun()
    ensures AppendFitsAsWritten(0, PAGE_SIZE, PAGE_SIZE) && !AppendFits(0, PAGE_SIZE, PAGE_SIZE)
    ensures var u := AppendImage(Zeros(PAGE_SIZE), 0, PAGE_SIZE, Zeros(PAGE_SIZE));
      Header(u) == 1 && Entry(u, 0) == 0 && !Wellformed(u, 1)
      && SlotInBounds(u, 0) && SlotAt(u, 0).data != Zeros(PAGE_SIZE)
  {
    var z := Zeros(PAGE_SIZE);
    var s1 := WriteInt32(z, EntryPos(0), 0);
    var s2 := Splice(s1, 0, z);
    assert s2 == z;
    var u := WriteInt32(z, 0, 1);
    assert AppendImage(z, 0, PAGE_SIZE, z) == u;
    Int32AtWritten(z, 0, 1);
    Int32AtSame(u, z, EntryPos(0));
    BigEndianZeros(z[4..8][..4]);
    assert Entry(u, 0) == 0;
    assert EncodeInt32(1)[3] == 1;
    assert u[3] == 1;
    assert SlotAt(u, 0).data == u;
    assert Directory(u, 1) == [0];
    assert !SlotFits(Directory(u, 1), 0);
  }

  /**
   * The whole window the test as written gets wrong: every record size in `(freeSpace - 4,
   * freeSpace + 4]` passes it and fails the needed test, and the record then starts inside
   * the directory the page has after the append, so its bytes and the new entry overlap.
   */
  lemma AppendGuardWindow(d: int, last: int, size: int)
    requires FreeSpace(d, last) - ENTRY_SIZE < size <= FreeSpace(d, last) + ENTRY_SIZE
    ensures AppendFitsAsWritten(d, last, size) && !AppendFits(d, last, size)
    ensures EntryPos(d) - ENTRY_SIZE <= last - size < EntryPos(d + 1)
  {
  }

  /** The image after an append: new directory entry, then the record's bytes, then the header. */
  function AppendImage(s: seq<byte>, d: int, last: int, data: seq<byte>): (r: seq<byte>)
    requires |s| == PAGE_SIZE && DirSized(d + 1) && 0 <= d
    requires 0 <= last - |data| && last <= PAGE_SIZE
    ensures |r| == PAGE_SIZE
  {
    var newLast := last - |data|;
    var s1 := WriteInt32(s, EntryPos(d), newLast);
    var s2 := Splice(s1, newLast, data);
    WriteInt32(s2, 0, d + 1)
  }

  /** An append stores the new directory size in the header. */
  lemma AppendHeader(s: seq<byte>, d: int, last: int, data: seq<byte>)
    requires |s| == PAGE_SIZE && DirSized(d + 1) && 0 <= d
    requires EntryPos(d + 1) <= last - |data| && last <= PAGE_SIZE
    ensures Header(AppendImage(s, d, last, data)) == d + 1
  {
    var newLast := last - |data|;
    var s2 := Splice(WriteInt32(s, EntryPos(d), newLast), newLast, data);
    Int32AtWritten(s2, 0, d + 1);
  }

  /** An append extends the directory by the new record's start. */
  lemma AppendDirectory(s: seq<byte>, d: int, last: int, data: seq<byte>)
    requires |s| == PAGE_SIZE && DirSized(d + 1) && 0 <= d
    requires EntryPos(d + 1) <= last - |data| && last <= PAGE_SIZE
    ensures Directory(AppendImage(s, d, last, data), d + 1) == Directory(s, d) + [last - |data|]
  {
    var newLast := last - |data|;
    var s1 := WriteInt32(s, EntryPos(d), newLast);
    var s2 := Splice(s1, newLast, data);
    var u := WriteInt32(s2, 0, d + 1);
    assert AppendImage(s, d, last, data) == u;
    DirectoryAfterExtend(s, d, newLast);
    DirectoryAfterSplice(s1, d + 1, newLast, data);
    DirectoryAfterHeader(s2, d + 1, d + 1);
  }

  /** An append writes the record just below the record area and keeps the records above it. */
  lemma AppendRecordArea(s: seq<byte>, d: int, last: int, data: seq<byte>)
    requires |s| == PAGE_SIZE && DirSized(d + 1) && 0 <= d
    requires EntryPos(d + 1) <= last - |data| && last <= PAGE_SIZE
    ensures var u := AppendImage(s, d, last, data);
      Agree(u, s, last, PAGE_SIZE) && u[last - |data|..last] == data
  {
    var newLast := last - |data|;
    var s1 := WriteInt32(s, EntryPos(d), newLast);
    var s2 := Splice(s1, newLast, data);
    var u := WriteInt32(s2, 0, d + 1);
    Int32AtWritten(s, EntryPos(d), newLast);
    SpliceElsewhere(s1, newLast, data, last, PAGE_SIZE);
    SpliceWritten(s1, newLast, data);
    Int32AtWritten(s2, 0, d + 1);
    AgreeTrans(u, s2, s1, last, PAGE_SIZE);
    AgreeTrans(u, s1, s, last, PAGE_SIZE);
    SliceSame(u, s2, newLast, last, 0);
  }

  /** A directory extended by the entry of a record written just below the record area. */
  lemma AppendedSlotsOf(s: seq<byte>, dir: seq<int>, u: seq<byte>, data: seq<byte>)
    requires |s| == |u| == PAGE_SIZE && DirFits(dir)
    requires AppendFits(|dir|, AreaStartOf(dir), |data|)
    requires Agree(u, s, AreaStartOf(dir), PAGE_SIZE)
    requires u[AreaStartOf(dir) - |data|..AreaStartOf(dir)] == data
    ensures var dir' := dir + [AreaStartOf(dir) - |data|];
      DirFits(dir') && AreaStartOf(dir') == AreaStartOf(dir) - |data|
      && SlotsOf(u, dir') == SlotsOf(s, dir) + [Slot(false, data)]
  {
    var last := AreaStartOf(dir);
    var dir' := dir + [last - |data|];
    forall i | 0 <= i < |dir'|
      ensures SlotFits(dir', i)
    {
      if i < |dir| {
        assert SlotFits(dir, i);
        AboveAreaStart(dir, i);
      }
    }
    SlotsOfSameArea(s, u, dir);
    forall i | 0 <= i < |dir'|
      ensures SlotFits(dir', i) && SlotOf(u, dir', i) == (SlotsOf(u, dir) + [Slot(false, data)])[i]
    {
      if i < |dir| {
        assert SlotFits(dir, i);
      }
    }
    SlotsOfByParts(u, dir', SlotsOf(s, dir) + [Slot(false, data)]);
  }

  /**
   * `u` is `s` after `data` was appended as a live record: one more slot, the record area
   * grown downwards by the record's size, and the header counting the new slot.
   */
  ghost predicate Appended(s: seq<byte>, d: int, data: seq<byte>, u: seq<byte>)
    requires Wellformed(s, d)
  {
    Wellformed(u, d + 1) && Header(u) == d + 1 && AreaStart(u, d + 1) == AreaStart(s, d) - |data|
    && Slots(u, d + 1) == Slots(s, d) + [Slot(false, data)]
  }

  /** An image with the writes of an append has the appended slots. */
  lemma AppendedFromWrites(s: seq<byte>, d: int, data: seq<byte>, u: seq<byte>)
    requires Wellformed(s, d) && AppendFits(d, AreaStart(s, d), |data|) && |u| == PAGE_SIZE
    requires DirSized(d + 1) && Header(u) == d + 1
    requires Directory(u, d + 1) == Directory(s, d) + [AreaStart(s, d) - |data|]
    requires Agree(u, s, AreaStart(s, d), PAGE_SIZE)
    requires u[AreaStart(s, d) - |data|..AreaStart(s, d)] == data
    ensures Appended(s, d, data, u)
  {
    AppendedSlotsOf(s, Directory(s, d), u, data);
  }

  /** An append that passes the corrected test adds exactly one live slot at the end. */
  lemma AppendCorrect(s: seq<byte>, d: int, data: seq<byte>)
    requires Wellformed(s, d) && AppendFits(d, AreaStart(s, d), |data|)
    ensures DirSized(d + 1) && 0 <= AreaStart(s, d) - |data|
    ensures Appended(s, d, data, AppendImage(s, d, AreaStart(s, d), data))
  {
    AppendHeader(s, d, AreaStart(s, d), data);
    AppendDirectory(s, d, AreaStart(s, d), data);
    AppendRecordArea(s, d, AreaStart(s, d), data);
    AppendedFromWrites(s, d, data, AppendImage(s, d, AreaStart(s, d), data));
  }

  // ===========================================================================
  // Deleting a record (deleteRecord)
  // ===========================================================================

  /** The image after `deleteRecord(r)`: a positive entry in range is negated. */
  function DeleteImage(s: seq<byte>, d: int, r: int): (u: seq<byte>)
    requires Wellformed(s, d)
    ensures |u| == PAGE_SIZE
  {
    if 0 <= r < d && Entry(s, r) > 0 then WriteInt32(s, EntryPos(r), -Entry(s, r)) else s
  }

  /** Negating a positive entry keeps the directory consistent and the record area in place. */
  lemma TombstoneFits(dir: seq<int>, r: int)
    requires DirFits(dir) && 0 <= r < |dir| && dir[r] > 0
    ensures DirFits(dir[r := -dir[r]]) && AreaStartOf(dir[r := -dir[r]]) == AreaStartOf(dir)
  {
    var dir' := dir[r := -dir[r]];
    forall i | 0 <= i < |dir'|
      ensures SlotFits(dir', i)
    {
      assert SlotFits(dir, i);
    }
  }

  /** Negating a positive entry turns its record into a tombstone that keeps its bytes. */
  lemma TombstoneSlotsOf(s: seq<byte>, dir: seq<int>, r: int)
    requires |s| == PAGE_SIZE && DirFits(dir) && 0 <= r < |dir| && dir[r] > 0
    ensures DirFits(dir[r := -dir[r]])
    ensures SlotsOf(s, dir[r := -dir[r]]) == SlotsOf(s, dir)[r := Slot(true, SlotsOf(s, dir)[r].data)]
  {
    var dir' := dir[r := -dir[r]];
    TombstoneFits(dir, r);
    forall i | 0 <= i < |dir'|
      ensures SlotFits(dir', i) && SlotOf(s, dir', i) == SlotsOf(s, dir)[r := Slot(true, SlotsOf(s, dir)[r].data)][i]
    {
      assert SlotFits(dir, i);
    }
    SlotsOfByParts(s, dir', SlotsOf(s, dir)[r := Slot(true, SlotsOf(s, dir)[r].data)]);
  }

  /**
   * `u` is `s` after deleting record `r`: an id in range becomes a tombstone that keeps its
   * bytes, an id out of range changes nothing, and the header and record area stay put.
   */
  ghost predicate Deleted(s: seq<byte>, d: int, r: int, u: seq<byte>)
    requires Wellformed(s, d)
  {
    Wellformed(u, d) && Header(u) == Header(s) && AreaStart(u, d) == AreaStart(s, d)
    && Slots(u, d) == if 0 <= r < d then Slots(s, d)[r := Slot(true, Slots(s, d)[r].data)] else Slots(s, d)
  }

  /** Negating entry `r` of a well-formed image keeps it well-formed, with the same record area. */
  lemma NegatedWellformed(s: seq<byte>, d: int, r: int, u: seq<byte>)
    requires Wellformed(s, d) && 0 <= r < d && Directory(s, d)[r] > 0 && |u| == PAGE_SIZE
    requires Directory(u, d) == Directory(s, d)[r := -Directory(s, d)[r]]
    ensures Wellformed(u, d) && AreaStart(u, d) == AreaStart(s, d)
  {
    TombstoneFits(Directory(s, d), r);
  }

  /** Tombstoning slot `r` of an image whose record area is kept elsewhere. */
  lemma TombstoneInPlace(s: seq<byte>, u: seq<byte>, dir: seq<int>, r: int)
    requires |u| == PAGE_SIZE && |s| == PAGE_SIZE && DirFits(dir) && 0 <= r < |dir| && dir[r] > 0
    requires Agree(u, s, EntryPos(r + 1), PAGE_SIZE)
    ensures DirFits(dir[r := -dir[r]])
    ensures SlotsOf(u, dir[r := -dir[r]]) == SlotsOf(s, dir)[r := Slot(true, SlotsOf(s, dir)[r].data)]
  {
    TombstoneSlotsOf(s, dir, r);
    SlotsOfSameArea(s, u, dir[r := -dir[r]]);
  }

  /** Negating entry `r` and keeping the record area turns slot `r` into a tombstone. */
  lemma NegatedSlots(s: seq<byte>, d: int, r: int, u: seq<byte>)
    requires Wellformed(s, d) && 0 <= r < d && Directory(s, d)[r] > 0 && |u| == PAGE_SIZE
    requires Directory(u, d) == Directory(s, d)[r := -Directory(s, d)[r]]
    requires Agree(u, s, EntryPos(r + 1), PAGE_SIZE)
    ensures Wellformed(u, d) && Slots(u, d) == Slots(s, d)[r := Slot(true, Slots(s, d)[r].data)]
  {
    TombstoneInPlace(s, u, Directory(s, d), r);
  }

  /** Negating entry `r` of a well-formed image tombstones its slot. */
  lemma DeletedFromWrite(s: seq<byte>, d: int, r: int, u: seq<byte>)
    requires Wellformed(s, d) && 0 <= r < d && Directory(s, d)[r] > 0 && |u| == PAGE_SIZE
    requires Directory(u, d) == Directory(s, d)[r := -Directory(s, d)[r]]
    requires Agree(u, s, 0, EntryPos(r)) && Agree(u, s, EntryPos(r + 1), PAGE_SIZE)
    ensures Deleted(s, d, r, u)
  {
    NegatedWellformed(s, d, r, u);
    HeaderSame(u, s);
    NegatedSlots(s, d, r, u);
  }

  /** Negating a positive entry of a well-formed image tombstones its slot. */
  lemma DeletePositive(s: seq<byte>, d: int, r: int)
    requires Wellformed(s, d) && 0 <= r < d && Entry(s, r) > 0
    ensures Deleted(s, d, r, WriteInt32(s, EntryPos(r), -Entry(s, r)))
  {
    DirectoryIndex(s, d, r);
    DirectoryAfterWrite(s, d, r, -Entry(s, r));
    DeletedFromWrite(s, d, r, WriteInt32(s, EntryPos(r), -Entry(s, r)));
  }

  /** A slot whose entry is not positive is already a tombstone. */
  lemma AlreadyTombstone(s: seq<byte>, dir: seq<int>, r: int)
    requires |s| == PAGE_SIZE && DirFits(dir) && 0 <= r < |dir| && dir[r] <= 0
    ensures SlotsOf(s, dir)[r := Slot(true, SlotsOf(s, dir)[r].data)] == SlotsOf(s, dir)
  {
    assert SlotFits(dir, r);
  }

  /** Deleting turns the slot into a tombstone that keeps its bytes; nothing else changes. */
  lemma DeleteCorrect(s: seq<byte>, d: int, r: int)
    requires Wellformed(s, d)
    ensures Deleted(s, d, r, DeleteImage(s, d, r))
  {
    if 0 <= r < d {
      if Entry(s, r) > 0 {
        DeletePositive(s, d, r);
      } else {
        DirectoryIndex(s, d, r);
        AlreadyTombstone(s, Directory(s, d), r);
      }
    }
  }

  // ===========================================================================
  // Rewriting a record in place (putRecord with recordId < directorySize)
  // ===========================================================================

  /** The size of the slice record `r` occupies (the buffer's `capacity()`). */
  function Capacity(dir: seq<int>, r: int): int
    requires 0 <= r < |dir|
  {
    EndOf(dir, r) - StartOf(dir, r)
  }

  /** Bytes a rewrite of record `r` needs beyond its current slice (`requiredSpace`). */
  function Required(dir: seq<int>, r: int, size: int): int
    requires 0 <= r < |dir|
  {
    size - Capacity(dir, r)
  }

  /** The rewrite is attempted: `freeSpace < requiredSpace` fails. */
  predicate UpdateFits(dir: seq<int>, r: int, size: int)
    requires 0 <= r < |dir|
  {
    Required(dir, r, size) <= FreeSpace(|dir|, AreaStartOf(dir))
  }

  /** `offset.sign * (offset.absoluteValue - requiredSpace)` in Kotlin `Int` arithmetic. */
  function ShiftedEntry(e: int, req: int): int {
    Wrap32(Sign(e) * (Abs(e) - req))
  }

  /** The directory with entries `from .. stop` shifted by `req` bytes. */
  function ShiftDir(dir: seq<int>, from: int, stop: int, req: int): (r: seq<int>)
    requires 0 <= from <= stop <= |dir|
    ensures |r| == |dir|
  {
    seq(|dir|, j requires 0 <= j < |dir| => if from <= j < stop then ShiftedEntry(dir[j], req) else dir[j])
  }

  /** The directory after rewriting record `r` with `size` bytes. */
  function UpdatedDir(dir: seq<int>, r: int, size: int): (r': seq<int>)
    requires 0 <= r < |dir|
    ensures |r'| == |dir|
  {
    ShiftDir(dir, r, |dir|, Required(dir, r, size))[r := StartOf(dir, r) - Required(dir, r, size)]
  }

  /** The directory of a rewritten page, from the shifted directory and the new start of `r`. */
  lemma UpdatedDirOf(dir: seq<int>, tdir: seq<int>, r: int, size: int, start: int, ndir: seq<int>)
    requires 0 <= r < |dir| && tdir == ShiftDir(dir, r, |dir|, Required(dir, r, size))
    requires start == StartOf(dir, r) - Required(dir, r, size) && ndir == tdir[r := start]
    ensures ndir == UpdatedDir(dir, r, size)
  {
  }

  /** Shifting keeps a record's kind and moves its start by `req`. */
  lemma ShiftedEntryFacts(e: int, req: int)
    requires e != 0 && 0 < Abs(e) - req && Abs(e) <= PAGE_SIZE && -PAGE_SIZE <= req
    ensures Abs(ShiftedEntry(e, req)) == Abs(e) - req && (ShiftedEntry(e, req) < 0 <==> e < 0)
  {
    assert IsInt32(Sign(e) * (Abs(e) - req));
  }

  /** A shift by nothing leaves a consistent directory as it is. */
  lemma ShiftDirNone(dir: seq<int>, from: int)
    requires DirFits(dir) && 0 <= from <= |dir|
    ensures ShiftDir(dir, from, |dir|, 0) == dir
  {
    forall j | 0 <= j < |dir|
      ensures ShiftDir(dir, from, |dir|, 0)[j] == dir[j]
    {
      assert SlotFits(dir, j);
      assert IsInt32(dir[j]);
    }
  }

  /** One more step of the directory loop, on the directory. */
  lemma ShiftDirStep(dir: seq<int>, pdir: seq<int>, ndir: seq<int>, e: int, from: int, stop: int, req: int)
    requires 0 <= from < stop <= |dir| && pdir == ShiftDir(dir, from, stop - 1, req)
    requires pdir[stop - 1] == e && ndir == pdir[stop - 1 := ShiftedEntry(e, req)]
    ensures ndir == ShiftDir(dir, from, stop, req)
  {
  }

  /** Record `j` before `r` keeps its place and its bytes. */
  lemma UpdatedSlotBefore(s: seq<byte>, dir: seq<int>, u: seq<byte>, r: int, size: int, j: int)
    requires |s| == |u| == PAGE_SIZE && DirFits(dir) && 0 <= j < r < |dir|
    requires Agree(u, s, EndOf(dir, r), PAGE_SIZE)
    ensures var dir' := UpdatedDir(dir, r, size);
      StartOf(dir', j) == StartOf(dir, j) && EndOf(dir', j) == EndOf(dir, j) && (dir'[j] < 0 <==> dir[j] < 0)
      && SlotFits(dir, j) && u[StartOf(dir, j)..EndOf(dir, j)] == s[StartOf(dir, j)..EndOf(dir, j)]
  {
    assert SlotFits(dir, j);
    LaterBelow(dir, j, r);
    SliceSame(u, s, StartOf(dir, j), EndOf(dir, j), 0);
  }

  /** Record `j` after `r` moves down by `req` bytes and keeps its kind. */
  lemma UpdatedPlaceAfter(dir: seq<int>, r: int, size: int, j: int)
    requires DirFits(dir) && 0 <= r < j < |dir| && 0 <= size
    requires SlotFits(dir, r) && AreaStartOf(dir) <= StartOf(dir, r) && UpdateFits(dir, r, size)
    ensures var dir' := UpdatedDir(dir, r, size); var req := Required(dir, r, size);
      SlotFits(dir, j) && StartOf(dir', j) == StartOf(dir, j) - req && EndOf(dir', j) == EndOf(dir, j) - req
      && (dir'[j] < 0 <==> dir[j] < 0)
      && AreaStartOf(dir) <= StartOf(dir, j) && EndOf(dir, j) <= StartOf(dir, r)
  {
    var req := Required(dir, r, size);
    assert SlotFits(dir, j) && SlotFits(dir, j - 1);
    AboveAreaStart(dir, j);
    ShiftedEntryFacts(dir[j], req);
    if j - 1 > r {
      AboveAreaStart(dir, j - 1);
      ShiftedEntryFacts(dir[j - 1], req);
    }
    LaterBelow(dir, r, j);
  }

  /** Record `j` after `r` moves down by `req` bytes, keeping its kind and its bytes. */
  lemma UpdatedSlotAfter(s: seq<byte>, dir: seq<int>, u: seq<byte>, r: int, size: int, j: int)
    requires |s| == |u| == PAGE_SIZE && DirFits(dir) && 0 <= r < j < |dir| && 0 <= size
    requires SlotFits(dir, r) && AreaStartOf(dir) <= StartOf(dir, r) && UpdateFits(dir, r, size)
    requires forall k :: AreaStartOf(dir) - Required(dir, r, size) <= k < StartOf(dir, r) - Required(dir, r, size) ==>
      u[k] == s[k + Required(dir, r, size)]
    ensures var dir' := UpdatedDir(dir, r, size); var req := Required(dir, r, size);
      SlotFits(dir, j) && StartOf(dir', j) == StartOf(dir, j) - req && EndOf(dir', j) == EndOf(dir, j) - req
      && (dir'[j] < 0 <==> dir[j] < 0) && 0 <= StartOf(dir, j) - req <= EndOf(dir, j) - req <= PAGE_SIZE
      && u[StartOf(dir, j) - req..EndOf(dir, j) - req] == s[StartOf(dir, j)..EndOf(dir, j)]
  {
    UpdatedPlaceAfter(dir, r, size, j);
    var req := Required(dir, r, size);
    SliceSame(u, s, StartOf(dir, j) - req, EndOf(dir, j) - req, req);
  }

  /** Each slot of the rewritten directory fits; record `r` now starts `req` bytes lower. */
  lemma UpdatedSlotFits(dir: seq<int>, r: int, size: int, j: int)
    requires DirFits(dir) && 0 <= r < |dir| && 0 <= j < |dir| && 0 <= size
    requires SlotFits(dir, r) && AreaStartOf(dir) <= StartOf(dir, r) && UpdateFits(dir, r, size)
    ensures SlotFits(UpdatedDir(dir, r, size), j)
  {
    var req := Required(dir, r, size);
    var dir' := UpdatedDir(dir, r, size);
    assert SlotFits(dir, j);
    if j > r {
      AboveAreaStart(dir, j);
      ShiftedEntryFacts(dir[j], req);
      assert SlotFits(dir, j - 1);
      if j - 1 > r {
        AboveAreaStart(dir, j - 1);
        ShiftedEntryFacts(dir[j - 1], req);
      }
      LaterBelow(dir, r, j);
      assert EndOf(dir', j) == EndOf(dir, j) - req;
    } else if j == r {
      assert StartOf(dir', r) == StartOf(dir, r) - req;
      assert EndOf(dir', r) == EndOf(dir, r);
    } else {
      assert EndOf(dir', j) == EndOf(dir, j);
    }
  }

  /** The rewritten directory is consistent, and its record area moved by `req` bytes. */
  lemma UpdatedFits(dir: seq<int>, r: int, size: int)
    requires DirFits(dir) && 0 <= r < |dir| && 0 <= size && UpdateFits(dir, r, size)
    ensures DirFits(UpdatedDir(dir, r, size))
    ensures AreaStartOf(UpdatedDir(dir, r, size)) == AreaStartOf(dir) - Required(dir, r, size)
  {
    var req := Required(dir, r, size);
    var n := |dir|;
    assert SlotFits(dir, r);
    AboveAreaStart(dir, r);
    forall j | 0 <= j < n
      ensures SlotFits(UpdatedDir(dir, r, size), j)
    {
      UpdatedSlotFits(dir, r, size, j);
    }
    if n - 1 > r {
      assert SlotFits(dir, n - 1);
      ShiftedEntryFacts(dir[n - 1], req);
    }
  }

  /**
   * The bytes of page `u` after record `r` of page `s` was rewritten with `data`: the records
   * before `r` kept, `data` in the resized slice, the area between the record area start and
   * record `r` moved by `req` bytes.
   */
  ghost predicate Rewrote(s: seq<byte>, dir: seq<int>, u: seq<byte>, r: int, data: seq<byte>)
    requires |s| == |u| == PAGE_SIZE && DirFits(dir) && 0 <= r < |dir|
  {
    var req := Required(dir, r, |data|);
    SlotFits(dir, r) && AreaStartOf(dir) <= StartOf(dir, r) && UpdateFits(dir, r, |data|)
    && Agree(u, s, EndOf(dir, r), PAGE_SIZE)
    && u[StartOf(dir, r) - req..EndOf(dir, r)] == data
    && forall k :: AreaStartOf(dir) - req <= k < StartOf(dir, r) - req ==> u[k] == s[k + req]
  }

  /** One slot of a rewritten page: record `r` holds the new data, every other record its old bytes. */
  lemma UpdatedSlotOf(s: seq<byte>, dir: seq<int>, u: seq<byte>, r: int, data: seq<byte>, j: int)
    requires |s| == |u| == PAGE_SIZE && DirFits(dir) && 0 <= r < |dir| && Rewrote(s, dir, u, r, data)
    requires 0 <= j < |dir|
    ensures SlotFits(dir, j) && SlotFits(UpdatedDir(dir, r, |data|), j)
    ensures SlotOf(u, UpdatedDir(dir, r, |data|), j) == if j == r then Slot(false, data) else SlotOf(s, dir, j)
  {
    assert SlotFits(dir, j);
    UpdatedSlotFits(dir, r, |data|, j);
    if j < r {
      UpdatedSlotBefore(s, dir, u, r, |data|, j);
    } else if j > r {
      UpdatedSlotAfter(s, dir, u, r, |data|, j);
    }
  }

  /**
   * A record rewritten in its slot: the bytes of the records before it kept, the records
   * after it moved by `req`, and the new data in the resized slot. The slot becomes live.
   */
  lemma UpdatedSlotsOf(s: seq<byte>, dir: seq<int>, u: seq<byte>, r: int, data: seq<byte>)
    requires |s| == |u| == PAGE_SIZE && DirFits(dir) && 0 <= r < |dir| && Rewrote(s, dir, u, r, data)
    ensures DirFits(UpdatedDir(dir, r, |data|))
    ensures SlotsOf(u, UpdatedDir(dir, r, |data|)) == SlotsOf(s, dir)[r := Slot(false, data)]
  {
    var dir' := UpdatedDir(dir, r, |data|);
    var expected := SlotsOf(s, dir)[r := Slot(false, data)];
    UpdatedFits(dir, r, |data|);
    forall j | 0 <= j < |dir|
      ensures SlotFits(dir', j) && SlotOf(u, dir', j) == expected[j]
    {
      UpdatedSlotOf(s, dir, u, r, data, j);
    }
    SlotsOfByParts(u, dir', expected);
  }

  /** The directory loop of `shiftRecords`: entries `from .. stop` rewritten in order. */
  function ShiftEntries(t: seq<byte>, from: int, stop: int, req: int): (u: seq<byte>)
    requires |t| == PAGE_SIZE && 0 <= from <= stop && DirSized(stop)
    ensures |u| == PAGE_SIZE
    decreases stop - from
  {
    if stop == from then t
    else
      var prev := ShiftEntries(t, from, stop - 1, req);
      WriteInt32(prev, EntryPos(stop - 1), ShiftedEntry(Entry(prev, stop - 1), req))
  }

  /** The directory loop shifts exactly its entries. */
  lemma {:induction false} ShiftEntriesEffect(t: seq<byte>, from: int, stop: int, req: int, n: int)
    requires |t| == PAGE_SIZE && 0 <= from <= stop <= n && DirSized(n)
    ensures Directory(ShiftEntries(t, from, stop, req), n) == ShiftDir(Directory(t, n), from, stop, req)
    decreases stop - from
  {
    var dir := Directory(t, n);
    if stop == from {
      ShiftDirNoneAt(dir, from, req);
    } else {
      var prev := ShiftEntries(t, from, stop - 1, req);
      ShiftEntriesEffect(t, from, stop - 1, req, n);
      ShiftEntryStep(prev, dir, from, stop, req, n);
    }
  }

  /** One turn of the directory loop shifts one more entry. */
  lemma ShiftEntryStep(prev: seq<byte>, dir: seq<int>, from: int, stop: int, req: int, n: int)
    requires |prev| == PAGE_SIZE && 0 <= from < stop <= n && DirSized(n) && |dir| == n
    requires Directory(prev, n) == ShiftDir(dir, from, stop - 1, req)
    ensures Directory(WriteInt32(prev, EntryPos(stop - 1), ShiftedEntry(Entry(prev, stop - 1), req)), n)
      == ShiftDir(dir, from, stop, req)
  {
    var e := Entry(prev, stop - 1);
    var u := WriteInt32(prev, EntryPos(stop - 1), ShiftedEntry(e, req));
    DirectoryIndex(prev, n, stop - 1);
    DirectoryAfterWrite(prev, n, stop - 1, ShiftedEntry(e, req));
    ShiftDirStep(dir, Directory(prev, n), Directory(u, n), e, from, stop, req);
  }

  /** The directory loop touches no byte outside its entries. */
  lemma {:induction false} ShiftEntriesFrame(t: seq<byte>, from: int, stop: int, req: int)
    requires |t| == PAGE_SIZE && 0 <= from <= stop && DirSized(stop)
    ensures Agree(ShiftEntries(t, from, stop, req), t, 0, EntryPos(from))
    ensures Agree(ShiftEntries(t, from, stop, req), t, EntryPos(stop), PAGE_SIZE)
    decreases stop - from
  {
    if stop > from {
      var prev := ShiftEntries(t, from, stop - 1, req);
      ShiftEntriesFrame(t, from, stop - 1, req);
      DirectoryAfterWrite(prev, stop, stop - 1, ShiftedEntry(Entry(prev, stop - 1), req));
      var u := ShiftEntries(t, from, stop, req);
      AgreeTrans(u, prev, t, 0, EntryPos(from));
    }
  }

  /** Entries before the shifted ones keep their value. */
  lemma ShiftDirBefore(dir: seq<int>, from: int, stop: int, req: int, j: int)
    requires 0 <= j < from <= stop <= |dir|
    ensures ShiftDir(dir, from, stop, req)[j] == dir[j]
  {
  }

  lemma ShiftDirNoneAt(dir: seq<int>, from: int, req: int)
    requires 0 <= from <= |dir|
    ensures ShiftDir(dir, from, from, req) == dir
  {
  }

  /**
   * What `shiftRecords(r, req)` needs of its page: the record area starts at `last`, after the
   * directory, and record `r` lies in it; the moved area stays after the directory and on the page.
   */
  predicate ShiftOk(s: seq<byte>, d: int, last: int, r: int, req: int) {
    |s| == PAGE_SIZE && DirSized(d) && 0 <= r < d
    && EntryPos(d) <= last <= Abs(Entry(s, r)) <= PAGE_SIZE
    && EntryPos(d) <= last - req && Abs(Entry(s, r)) - req <= PAGE_SIZE
  }

  /**
   * `shiftRecords(r, req)`: the bytes between the record area start and record `r` are copied
   * `req` bytes lower, a freed gap is zeroed, and the entries from `r` on follow the move.
   */
  function ShiftImage(s: seq<byte>, d: int, last: int, r: int, req: int): (t: seq<byte>)
    requires ShiftOk(s, d, last, r, req)
    ensures |t| == PAGE_SIZE
  {
    if req == 0 then s
    else
      var start := Abs(Entry(s, r));
      var moved := Splice(s, last - req, s[last..start]);
      var cleared := if req < 0 then Splice(moved, last, Zeros(-req)) else moved;
      ShiftEntries(cleared, r, d, req)
  }

  /** `shiftRecords` with a nonzero shift is the copy and fill followed by the directory loop. */
  lemma ShiftImageOf(s: seq<byte>, d: int, last: int, r: int, req: int, c: seq<byte>, u: seq<byte>)
    requires ShiftOk(s, d, last, r, req) && req != 0
    requires c == ShiftedArea(s, d, last, r, req) && u == ShiftEntries(c, r, d, req)
    ensures u == ShiftImage(s, d, last, r, req)
  {
  }

  /** The byte copy and the zero fill of `shiftRecords`, before its directory loop. */
  function ShiftedArea(s: seq<byte>, d: int, last: int, r: int, req: int): (c: seq<byte>)
    requires ShiftOk(s, d, last, r, req)
    ensures |c| == PAGE_SIZE
  {
    var start := Abs(Entry(s, r));
    var moved := Splice(s, last - req, s[last..start]);
    if req < 0 then Splice(moved, last, Zeros(-req)) else moved
  }

  /** The copy and the fill leave the header and the directory alone and move the area bytes. */
  lemma ShiftedAreaFacts(s: seq<byte>, d: int, last: int, r: int, req: int)
    requires ShiftOk(s, d, last, r, req)
    ensures Agree(ShiftedArea(s, d, last, r, req), s, 0, EntryPos(d))
    ensures Agree(ShiftedArea(s, d, last, r, req), s, Abs(Entry(s, r)) - req, PAGE_SIZE)
    ensures forall k :: last - req <= k < Abs(Entry(s, r)) - req ==> ShiftedArea(s, d, last, r, req)[k] == s[k + req]
  {
  }

  /** `shiftRecords` moves the entries from `r` on by `req` bytes. */
  lemma ShiftImageDirectory(s: seq<byte>, d: int, last: int, r: int, req: int)
    requires ShiftOk(s, d, last, r, req) && req != 0
    ensures Directory(ShiftImage(s, d, last, r, req), d) == ShiftDir(Directory(s, d), r, d, req)
  {
    var c := ShiftedArea(s, d, last, r, req);
    assert ShiftImage(s, d, last, r, req) == ShiftEntries(c, r, d, req);
    ShiftedAreaFacts(s, d, last, r, req);
    DirectorySame(s, c, d);
    ShiftEntriesEffect(c, r, d, req, d);
  }

  /**
   * `shiftRecords` keeps the header, the entries before `r` and the bytes from record `r`'s
   * shifted start on, and it moves the bytes between the area start and record `r`.
   */
  lemma ShiftImageBytes(s: seq<byte>, d: int, last: int, r: int, req: int, start: int)
    requires ShiftOk(s, d, last, r, req) && start == Abs(Entry(s, r))
    ensures Agree(ShiftImage(s, d, last, r, req), s, 0, EntryPos(r))
    ensures Agree(ShiftImage(s, d, last, r, req), s, start - req, PAGE_SIZE)
    ensures forall k :: last - req <= k < start - req ==> ShiftImage(s, d, last, r, req)[k] == s[k + req]
  {
    if req != 0 {
      var c := ShiftedArea(s, d, last, r, req);
      var t := ShiftImage(s, d, last, r, req);
      assert t == ShiftEntries(c, r, d, req);
      ShiftedAreaFacts(s, d, last, r, req);
      ShiftEntriesFrame(c, r, d, req);
    }
  }

  /** `shiftRecords` may run: record `r` is in the record area and the shifted area fits. */
  lemma UpdateReady(s: seq<byte>, d: int, r: int, size: int)
    requires Wellformed(s, d) && 0 <= r < d && 0 <= size && UpdateFits(Directory(s, d), r, size)
    ensures ShiftOk(s, d, AreaStart(s, d), r, Required(Directory(s, d), r, size))
    ensures Abs(Entry(s, r)) == StartOf(Directory(s, d), r)
  {
    var dir := Directory(s, d);
    DirectoryIndex(s, d, r);
    assert SlotFits(dir, r);
    AboveAreaStart(dir, r);
  }

  /** After `shiftRecords`, record `r` starts `req` bytes lower, still inside the record area. */
  lemma ShiftedStart(s: seq<byte>, d: int, r: int, size: int)
    requires Wellformed(s, d) && 0 <= r < d && 0 <= size && UpdateFits(Directory(s, d), r, size)
    ensures var dir := Directory(s, d); var req := Required(dir, r, size); var last := AreaStart(s, d);
      ShiftOk(s, d, last, r, req) && SlotFits(dir, r)
      && Abs(Entry(ShiftImage(s, d, last, r, req), r)) == StartOf(dir, r) - req
      && EntryPos(d) <= last - req <= StartOf(dir, r) - req && StartOf(dir, r) - req + size == EndOf(dir, r)
  {
    var dir := Directory(s, d);
    var req := Required(dir, r, size);
    UpdateReady(s, d, r, size);
    var t := ShiftImage(s, d, AreaStart(s, d), r, req);
    assert SlotFits(dir, r);
    AboveAreaStart(dir, r);
    if req != 0 {
      DirectoryIndex(t, d, r);
      ShiftImageDirectory(s, d, AreaStart(s, d), r, req);
      ShiftedEntryFacts(dir[r], req);
    }
  }

  /**
   * After `shiftRecords`, record `r`'s slice has exactly the size of the new data: the
   * `capacity() == recordData.size` assertion of `putRecord` holds.
   */
  lemma ShiftedCapacity(s: seq<byte>, d: int, r: int, size: int)
    requires Wellformed(s, d) && 0 <= r < d && 0 <= size && UpdateFits(Directory(s, d), r, size)
    ensures var req := Required(Directory(s, d), r, size);
      ShiftOk(s, d, AreaStart(s, d), r, req) &&
      var t := ShiftImage(s, d, AreaStart(s, d), r, req);
      EndOf(Directory(t, d), r) - StartOf(Directory(t, d), r) == size
  {
    var dir := Directory(s, d);
    var req := Required(dir, r, size);
    ShiftedStart(s, d, r, size);
    var t := ShiftImage(s, d, AreaStart(s, d), r, req);
    var dt := Directory(t, d);
    DirectoryIndex(t, d, r);
    assert StartOf(dt, r) == StartOf(dir, r) - req;
    if r > 0 {
      if req != 0 {
        ShiftImageDirectory(s, d, AreaStart(s, d), r, req);
        ShiftDirBefore(dir, r, d, req, r - 1);
      }
      assert dt[r - 1] == dir[r - 1];
    }
  }

  /**
   * The tail of `putRecord(data, r)` after `shiftRecords`: the data written at the slice of
   * record `r`, from its entry's offset on, and the entry set to that offset, which makes the
   * record live again.
   */
  function RewriteSlot(t: seq<byte>, r: int, data: seq<byte>): (u: seq<byte>)
    requires |t| == PAGE_SIZE && 0 <= r && DirSized(r + 1)
    requires EntryPos(r + 1) <= Abs(Entry(t, r)) && Abs(Entry(t, r)) + |data| <= PAGE_SIZE
    ensures |u| == PAGE_SIZE
  {
    var start := Abs(Entry(t, r));
    WriteInt32(Splice(t, start, data), EntryPos(r), start)
  }

  /**
   * `putRecord(data, r)` over an existing slot once `freeSpace < requiredSpace` has failed:
   * `shiftRecords(r, requiredSpace)`, then the data written into the resized slice.
   */
  function UpdateImage(s: seq<byte>, d: int, r: int, data: seq<byte>): (u: seq<byte>)
    requires Wellformed(s, d) && 0 <= r < d && UpdateFits(Directory(s, d), r, |data|)
    ensures |u| == PAGE_SIZE
  {
    ShiftedStart(s, d, r, |data|);
    RewriteSlot(ShiftImage(s, d, AreaStart(s, d), r, Required(Directory(s, d), r, |data|)), r, data)
  }

  /** The page after rewriting record `r` with `data`. */
  ghost predicate Updated(s: seq<byte>, d: int, r: int, data: seq<byte>, u: seq<byte>)
    requires Wellformed(s, d) && 0 <= r < d
  {
    Wellformed(u, d) && Header(u) == Header(s)
    && AreaStart(u, d) == AreaStart(s, d) - Required(Directory(s, d), r, |data|)
    && Slots(u, d) == Slots(s, d)[r := Slot(false, data)]
  }

  /** Writing the data and then the entry of record `r`: what changes and what does not. */
  lemma RewriteBytes(t: seq<byte>, r: int, data: seq<byte>)
    requires |t| == PAGE_SIZE && 0 <= r && DirSized(r + 1)
    requires EntryPos(r + 1) <= Abs(Entry(t, r)) && Abs(Entry(t, r)) + |data| <= PAGE_SIZE
    ensures var start := Abs(Entry(t, r)); var u := RewriteSlot(t, r, data);
      Agree(u, t, 0, EntryPos(r)) && Agree(u, t, EntryPos(r + 1), start)
      && Agree(u, t, start + |data|, PAGE_SIZE) && u[start..start + |data|] == data
  {
    var start := Abs(Entry(t, r));
    var t2 := Splice(t, start, data);
    var u := WriteInt32(t2, EntryPos(r), start);
    SpliceWritten(t, start, data);
    Int32AtWritten(t2, EntryPos(r), start);
    SliceSame(u, t2, start, start + |data|, 0);
  }

  /** The directory after writing the data and then the entry of record `r`. */
  lemma RewriteDirectory(t: seq<byte>, d: int, r: int, data: seq<byte>)
    requires |t| == PAGE_SIZE && DirSized(d) && 0 <= r < d
    requires EntryPos(d) <= Abs(Entry(t, r)) && Abs(Entry(t, r)) + |data| <= PAGE_SIZE
    ensures Directory(RewriteSlot(t, r, data), d) == Directory(t, d)[r := Abs(Entry(t, r))]
  {
    var start := Abs(Entry(t, r));
    DirectoryAfterSplice(t, d, start, data);
    DirectoryAfterWrite(Splice(t, start, data), d, r, start);
  }

  /** A shifted image with the data and the entry written is the rewritten page. */
  lemma RewroteFromShift(s: seq<byte>, dir: seq<int>, t: seq<byte>, r: int, data: seq<byte>, last: int, start: int, req: int)
    requires |s| == |t| == PAGE_SIZE && DirFits(dir) && 0 <= r < |dir| && UpdateFits(dir, r, |data|)
    requires SlotFits(dir, r) && AreaStartOf(dir) <= StartOf(dir, r)
    requires last == AreaStartOf(dir) && start == StartOf(dir, r) && req == Required(dir, r, |data|)
    requires Abs(Entry(t, r)) == start - req
    requires Agree(t, s, 0, EntryPos(r)) && Agree(t, s, start - req, PAGE_SIZE)
    requires forall k :: last - req <= k < start - req ==> t[k] == s[k + req]
    ensures Agree(RewriteSlot(t, r, data), s, 0, DIRECTORY_START) && Rewrote(s, dir, RewriteSlot(t, r, data), r, data)
  {
    RewriteBytes(t, r, data);
  }

  /** The directory of a rewritten page. */
  lemma UpdateDirectory(s: seq<byte>, d: int, r: int, data: seq<byte>)
    requires Wellformed(s, d) && 0 <= r < d && UpdateFits(Directory(s, d), r, |data|)
    ensures Directory(UpdateImage(s, d, r, data), d) == UpdatedDir(Directory(s, d), r, |data|)
  {
    var dir := Directory(s, d);
    var req := Required(dir, r, |data|);
    ShiftedStart(s, d, r, |data|);
    var t := ShiftImage(s, d, AreaStart(s, d), r, req);
    assert UpdateImage(s, d, r, data) == RewriteSlot(t, r, data);
    RewriteDirectory(t, d, r, data);
    if req != 0 {
      ShiftImageDirectory(s, d, AreaStart(s, d), r, req);
    } else {
      ShiftDirNone(dir, r);
    }
    UpdatedDirOf(dir, Directory(t, d), r, |data|, Abs(Entry(t, r)), Directory(UpdateImage(s, d, r, data), d));
  }

  /** The bytes of a rewritten page: header and later records kept, data in place, area moved. */
  lemma UpdateBytes(s: seq<byte>, d: int, r: int, data: seq<byte>)
    requires Wellformed(s, d) && 0 <= r < d && UpdateFits(Directory(s, d), r, |data|)
    ensures Agree(UpdateImage(s, d, r, data), s, 0, DIRECTORY_START)
    ensures Rewrote(s, Directory(s, d), UpdateImage(s, d, r, data), r, data)
  {
    var dir := Directory(s, d);
    var req := Required(dir, r, |data|);
    ShiftedStart(s, d, r, |data|);
    UpdateReady(s, d, r, |data|);
    AboveAreaStart(dir, r);
    var last := AreaStart(s, d);
    var t := ShiftImage(s, d, last, r, req);
    assert UpdateImage(s, d, r, data) == RewriteSlot(t, r, data);
    ShiftImageBytes(s, d, last, r, req, StartOf(dir, r));
    RewroteFromShift(s, dir, t, r, data, last, StartOf(dir, r), req);
  }

  /** The rewrite facts give the rewritten page. */
  lemma UpdatedFromWrites(s: seq<byte>, d: int, r: int, data: seq<byte>, u: seq<byte>)
    requires Wellformed(s, d) && 0 <= r < d && UpdateFits(Directory(s, d), r, |data|) && |u| == PAGE_SIZE
    requires Directory(u, d) == UpdatedDir(Directory(s, d), r, |data|)
    requires Agree(u, s, 0, DIRECTORY_START) && Rewrote(s, Directory(s, d), u, r, data)
    ensures Updated(s, d, r, data, u)
  {
    var dir := Directory(s, d);
    UpdatedSlotsOf(s, dir, u, r, data);
    UpdatedFits(dir, r, |data|);
    HeaderSame(u, s);
  }

  /** Rewriting a record in its slot changes that record and nothing else a reader can see. */
  lemma UpdateCorrect(s: seq<byte>, d: int, r: int, data: seq<byte>)
    requires Wellformed(s, d) && 0 <= r < d && UpdateFits(Directory(s, d), r, |data|)
    ensures Updated(s, d, r, data, UpdateImage(s, d, r, data))
  {
    UpdateDirectory(s, d, r, data);
    UpdateBytes(s, d, r, data);
    UpdatedFromWrites(s, d, r, data, UpdateImage(s, d, r, data));
  }
}
