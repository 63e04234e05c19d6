/**
 * What a scan reads, stated on slot lists: the record `advanceRecord` moves to, the live
 * records of a page and of a list of pages, and the `(oid, pageId)` records of the page
 * directories.
 */
module Scans {
  import opened Bytes
  import opened StorageApi
  import opened PageLayout
  import opened PageModel
  import opened Records

  /**
   * The record `advanceRecord` moves to from index `idx`: it asks `getRecord` for
   * `idx + 1, idx + 2, ...`, skips deleted records and stops at the first live one, or with
   * nothing at the first id out of range.
   */
  function NextLive(slots: seq<Slot>, idx: int): Option<int>
    decreases |slots| - idx
  {
    var g := Get(slots, idx + 1);
    if g.IsOk() then Some(idx + 1)
    else if g.isOutOfRange then None
    else NextLive(slots, idx + 1)
  }

  /** It is the first live slot after `idx`; nothing is found only when every later slot is deleted. */
  lemma {:induction false} NextLiveIsFirstLive(slots: seq<Slot>, idx: int)
    ensures NextLive(slots, idx).Some? ==>
      var j := NextLive(slots, idx).value;
      idx < j < |slots| && !slots[j].deleted && forall k :: idx < k < j ==> slots[k].deleted
    ensures NextLive(slots, idx).None? ==>
      idx + 1 < 0 || forall k :: idx < k < |slots| ==> slots[k].deleted
    decreases |slots| - idx
  {
    var g := Get(slots, idx + 1);
    if !g.IsOk() && !g.isOutOfRange {
      NextLiveIsFirstLive(slots, idx + 1);
    }
  }

  /** The bytes of the live records of a page, in slot order. */
  function Live(slots: seq<Slot>): seq<seq<byte>>
    decreases |slots|
  {
    if slots == [] then []
    else
      var last := slots[|slots| - 1];
      Live(slots[..|slots| - 1]) + if last.deleted then [] else [last.data]
  }

  /**
   * Moving to the next live record reads one record more: the live records up to it are those
   * up to `idx` and then it. With no next record, every live record of the page is read.
   */
  lemma {:induction false} NextLiveReadsOneMore(slots: seq<Slot>, idx: int)
    requires -1 <= idx < |slots|
    ensures NextLive(slots, idx).Some? ==>
      var j := NextLive(slots, idx).value;
      0 <= j < |slots| && !slots[j].deleted && Live(slots[..j + 1]) == Live(slots[..idx + 1]) + [slots[j].data]
    ensures NextLive(slots, idx).None? ==> Live(slots) == Live(slots[..idx + 1])
    decreases |slots| - idx
  {
    var n := idx + 1;
    if n == |slots| {
      assert slots[..n] == slots;
    } else {
      assert slots[..n + 1][..n] == slots[..n];
      if slots[n].deleted {
        NextLiveReadsOneMore(slots, n);
      }
    }
  }

  /** The live records of a list of pages: page by page, each in slot order. */
  function Rows(pages: seq<seq<Slot>>): seq<seq<byte>>
    decreases |pages|
  {
    if pages == [] then [] else Rows(pages[..|pages| - 1]) + Live(pages[|pages| - 1])
  }

  /** One page more adds its live records at the end. */
  lemma RowsSnoc(pages: seq<seq<Slot>>, page: seq<Slot>)
    ensures Rows(pages + [page]) == Rows(pages) + Live(page)
  {
    assert (pages + [page])[..|pages|] == pages;
  }

  /** The live records up to slot `k` come first among the live records of the page. */
  lemma {:induction false} LivePrefix(slots: seq<Slot>, k: int)
    requires 0 <= k <= |slots|
    ensures Live(slots[..k]) <= Live(slots)
    decreases |slots|
  {
    if k < |slots| {
      var front := slots[..|slots| - 1];
      assert front[..k] == slots[..k];
      LivePrefix(front, k);
    } else {
      assert slots[..k] == slots;
    }
  }

  /** The ids `start, ..., stop - 1`, none when `stop <= start`. */
  function Between(start: int, stop: int): (r: seq<int>)
    ensures |r| == if stop <= start then 0 else stop - start
    ensures forall i :: 0 <= i < |r| ==> r[i] == start + i
    decreases stop - start
  {
    if stop <= start then [] else Between(start, stop - 1) + [stop - 1]
  }

  lemma BetweenSnoc(start: int, stop: int)
    requires start <= stop
    ensures Between(start, stop + 1) == Between(start, stop) + [stop]
  {
  }

  // ===========================================================================
  // Directory records
  // ===========================================================================

  /** An `OidPageidRecord`, `Record2<Oid, PageId>`: a table oid and one of its pages. */
  datatype OidPageid = OidPageid(value1: int, value2: int)

  /** `OidPageidRecord(intField(), intField())`, the template `fromBytes` reads with. */
  const OID_PAGEID: Record := Record2(Field(IntAttribute, IntValue(0)), Field(IntAttribute, IntValue(0)))

  /** `OidPageidRecord(intField(oid), intField(pageId)).asBytes()`. */
  function OidPageidBytes(oid: int, pageId: int): (bs: seq<byte>)
    requires IsInt32(oid) && IsInt32(pageId)
    ensures |bs| == 8
  {
    AsBytes(Record2(Field(IntAttribute, IntValue(oid)), Field(IntAttribute, IntValue(pageId))))
  }

  /** `OidPageidRecord(intField(), intField()).fromBytes(bytes)`. */
  function ParseOidPageid(bytes: seq<byte>): (r: Result<OidPageid>)
    ensures r.Ok? <==> |bytes| >= 8
    ensures r.Ok? ==> r.value == OidPageid(DecodeInt32(bytes), DecodeInt32(bytes[4..]))
    ensures |bytes| < 8 ==> r == Err(BufferUnderflow)
  {
    match FromBytes(OID_PAGEID, bytes)
    case Ok(Record2(Field(_, IntValue(a)), Field(_, IntValue(b)))) => Ok(OidPageid(a, b))
    case Ok(_) => assert false; Err(BufferUnderflow)
    case Err(e) => Err(e)
  }

  /** A directory record reads back as written, whatever follows it. */
  lemma ParseOidPageidBytes(oid: int, pageId: int, rest: seq<byte>)
    requires IsInt32(oid) && IsInt32(pageId)
    ensures ParseOidPageid(OidPageidBytes(oid, pageId) + rest) == Ok(OidPageid(oid, pageId))
  {
    var r := Record2(Field(IntAttribute, IntValue(oid)), Field(IntAttribute, IntValue(pageId)));
    assert FieldOk(Fields(r)[0]) && FieldOk(Fields(r)[1]);
    FromBytesAsBytes(r, rest);
  }

  /** Every record parsed, in order; the first that does not parse fails the whole list. */
  function ParseAll(rows: seq<seq<byte>>): (r: Result<seq<OidPageid>>)
    ensures r.Ok? <==> forall i :: 0 <= i < |rows| ==> ParseOidPageid(rows[i]).Ok?
    ensures r.Ok? ==> |r.value| == |rows| && forall i :: 0 <= i < |rows| ==> r.value[i] == ParseOidPageid(rows[i]).value
    decreases |rows|
  {
    if rows == [] then Ok([])
    else
      match ParseAll(rows[..|rows| - 1])
      case Err(e) => Err(e)
      case Ok(front) =>
        match ParseOidPageid(rows[|rows| - 1])
        case Err(e) => Err(e)
        case Ok(last) => Ok(front + [last])
  }

  /** One record more parses onto the end of the list. */
  lemma ParseAllSnoc(rows: seq<seq<byte>>, row: seq<byte>)
    requires ParseAll(rows).Ok? && ParseOidPageid(row).Ok?
    ensures ParseAll(rows + [row]) == Ok(ParseAll(rows).value + [ParseOidPageid(row).value])
  {
    assert (rows + [row])[..|rows|] == rows;
  }

  /** A non-empty tail split off its last element. */
  lemma SplitLast<T>(a: seq<T>, b: seq<T>)
    requires b != []
    ensures b == b[..|b| - 1] + [b[|b| - 1]]
    ensures a + b == (a + b[..|b| - 1]) + [b[|b| - 1]]
  {
  }

  lemma SplitFirst<T>(s: seq<T>)
    requires s != []
    ensures s == [s[0]] + s[1..]
  {
  }

  lemma AppendAssoc<T>(a: seq<T>, b: seq<T>, c: seq<T>)
    ensures (a + b) + c == a + (b + c)
  {
  }

  lemma PrefixExtend<T>(a: seq<T>, b: seq<T>, c: seq<T>)
    requires a <= b
    ensures a <= b + c
  {
    assert (b + c)[..|b|] == b;
  }

  lemma AppendPrefix<T>(a: seq<T>, b: seq<T>)
    ensures (a + b)[..|a|] == a
    ensures a + [] == a && [] + a == a
  {
  }

  /** A single record that parses. */
  lemma ParseAllOne(row: seq<byte>)
    requires ParseOidPageid(row).Ok?
    ensures ParseAll([row]) == Ok([ParseOidPageid(row).value])
  {
    assert [row][..0] == [];
    AppendPrefix([ParseOidPageid(row).value], []);
  }

  /** Two lists of records that both parse parse together, one after the other. */
  lemma {:induction false} ParseAllAppend(a: seq<seq<byte>>, b: seq<seq<byte>>)
    requires ParseAll(a).Ok? && ParseAll(b).Ok?
    ensures ParseAll(a + b) == Ok(ParseAll(a).value + ParseAll(b).value)
    decreases |b|
  {
    if b == [] {
      assert a + b == a;
      assert ParseAll(a).value + [] == ParseAll(a).value;
    } else {
      var front := b[..|b| - 1];
      var x := b[|b| - 1];
      SplitLast(a, b);
      ParseAllSnoc(front, x);
      ParseAllAppend(a, front);
      ParseAllSnoc(a + front, x);
      AppendAssoc(ParseAll(a).value, ParseAll(front).value, [ParseOidPageid(x).value]);
    }
  }

  /** The page ids of the directory records that belong to table `oid`, in directory order. */
  function TablePages(roots: seq<OidPageid>, oid: int): (ids: seq<int>)
    decreases |roots|
  {
    if roots == [] then []
    else
      var last := roots[|roots| - 1];
      TablePages(roots[..|roots| - 1], oid) + if last.value1 == oid then [last.value2] else []
  }

  /** Page `p` is a page of table `oid` exactly when the directory holds the record `(oid, p)`. */
  lemma {:induction false} TablePagesMembers(roots: seq<OidPageid>, oid: int)
    ensures forall p :: p in TablePages(roots, oid) <==> OidPageid(oid, p) in roots
    decreases |roots|
  {
    if roots != [] {
      var front := roots[..|roots| - 1];
      TablePagesMembers(front, oid);
      assert roots == front + [roots[|roots| - 1]];
    }
  }

  lemma TablePagesSnoc(roots: seq<OidPageid>, r: OidPageid, oid: int)
    ensures TablePages(roots + [r], oid) == TablePages(roots, oid) + if r.value1 == oid then [r.value2] else []
  {
    assert (roots + [r])[..|roots|] == roots;
  }
}
