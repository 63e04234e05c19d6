/**
 * What both generations of the system catalog keep in table `NAME_SYSTABLE_OID`: one
 * `(oid, name)` record per table. A table's pages are listed on its directory page, the page
 * whose id is the table's oid; the name table is read with a full scan over those pages, and
 * the catalogs search it by name and take the largest oid in it.
 */
module NameTables {
  import opened Bytes
  import opened StorageApi
  import opened PageLayout
  import opened PageModel
  import opened Records
  import opened PageStores
  import opened Scans
  import RootRecordScans
  import opened FullScans

  /** The oid of the name table, whose pages hold the `(oid, name)` records. */
  const NAME_SYSTABLE_OID: int := 0

  /** How many directory pages the page ids after them leave room for. */
  const MAX_ROOT_PAGE_COUNT: int := 4096

  /** A table name, as its UTF-16 units. */
  type Name = seq<Unit16>

  /** A name short enough for its string encoding. */
  predicate NameOk(name: Name) {
    4 + 2 * |name| <= INT_MAX
  }

  /** An `OidNameRecord`, `Record2<Oid, String>`. */
  datatype OidName = OidName(oid: int, name: Name)

  /** `OidNameRecord(intField(), stringField())`, the template `fromBytes` reads with. */
  const OID_NAME: Record := Record2(Field(IntAttribute, IntValue(0)), Field(StringAttribute, StringValue([])))

  /** `OidNameRecord(intField(oid), stringField(name)).asBytes()`. */
  function OidNameBytes(oid: int, name: Name): (bs: seq<byte>)
    requires IsInt32(oid) && NameOk(name)
    ensures |bs| == 8 + 2 * |name|
  {
    var r := Record2(Field(IntAttribute, IntValue(oid)), Field(StringAttribute, StringValue(name)));
    assert FieldOk(Fields(r)[0]) && FieldOk(Fields(r)[1]);
    AsBytes(r)
  }

  /** `OidNameRecord(intField(), stringField()).fromBytes(bytes)`. */
  function ParseOidName(bytes: seq<byte>): (r: Result<OidName>)
    ensures |bytes| < 8 ==> r.Err?
    ensures r.Ok? ==> r.value.oid == DecodeInt32(bytes)
  {
    match FromBytes(OID_NAME, bytes)
    case Ok(Record2(Field(_, IntValue(a)), Field(_, StringValue(n)))) => Ok(OidName(a, n))
    case Ok(_) => assert false; Err(BufferUnderflow)
    case Err(e) => Err(e)
  }

  /** A name record reads back as written, whatever follows it. */
  lemma ParseOidNameBytes(oid: int, name: Name, rest: seq<byte>)
    requires IsInt32(oid) && NameOk(name)
    ensures ParseOidName(OidNameBytes(oid, name) + rest) == Ok(OidName(oid, name))
  {
    var r := Record2(Field(IntAttribute, IntValue(oid)), Field(StringAttribute, StringValue(name)));
    assert FieldOk(Fields(r)[0]) && FieldOk(Fields(r)[1]);
    FromBytesAsBytes(r, rest);
  }

  // ===========================================================================
  // Reading a table
  // ===========================================================================

  /** The `(oid, pageId)` records on the directory page of table `oid`, parsed; the first that does not parse fails them all. */
  function DirectoryRoots(pages: map<int, seq<Slot>>, oid: int): Result<seq<OidPageid>> {
    ParseAll(Rows(Range(pages, oid, oid + 1)))
  }

  /** What a full scan of table `oid` yields: the live records of the pages its directory page lists for it. */
  function TableContents(pages: map<int, seq<Slot>>, oid: int): Result<seq<seq<byte>>> {
    match DirectoryRoots(pages, oid)
    case Err(e) => Err(e)
    case Ok(roots) => Ok(TableRows(pages, roots, oid))
  }

  /**
   * A full scan of table `oid` driven by `RootRecordIteratorImpl(pageCache, oid, 1)`: the
   * directory page is read, then the table's pages. Every pin is released at the end. The scan
   * fails on directory bytes that do not parse, or on releasing a page without an id.
   */
  method ReadTable(store: PageStore, oid: int, pinning: bool) returns (r: Result<seq<seq<byte>>>)
    modifies store
    ensures store.pages == old(store.pages)
    ensures r.Ok? ==> TableContents(store.pages, oid) == r && store.pins == old(store.pins)
    ensures r.Err? ==> TableContents(store.pages, oid).Err? || oid < 0 || (pinning && r.error == IllegalArgument)
  {
    var roots := RootRecordScans.RootRecordsList(store, oid, 1);
    if roots.Err? {
      return Err(roots.error);
    }
    r := Scan(store, oid, roots.value, pinning);
  }

  /** A record that is live on one of the pages `ids` is among their rows. */
  lemma {:induction false} RowsOfPagesHas(pages: map<int, seq<Slot>>, ids: seq<int>, p: int, x: seq<byte>)
    requires p in ids && x in Live(PageOf(pages, p))
    ensures x in Rows(PagesAt(pages, ids))
    decreases |ids|
  {
    var front := ids[..|ids| - 1];
    var last := ids[|ids| - 1];
    assert ids == front + [last];
    PagesAtSnoc(pages, front, last);
    RowsSnoc(PagesAt(pages, front), PageOf(pages, last));
    if last != p {
      RowsOfPagesHas(pages, front, p, x);
    }
  }

  /**
   * A record appended to a page the name table's directory lists, other than the directory page
   * itself, is among the name table's records afterwards.
   */
  lemma AppendedRecordListed(pages: map<int, seq<Slot>>, p: int, bytes: seq<byte>)
    requires p != NAME_SYSTABLE_OID && DirectoryRoots(pages, NAME_SYSTABLE_OID).Ok?
    requires p in TablePages(DirectoryRoots(pages, NAME_SYSTABLE_OID).value, NAME_SYSTABLE_OID)
    requires !Put(PageOf(pages, p), bytes, -1).result.isOutOfSpace
    ensures var after := pages[p := Put(PageOf(pages, p), bytes, -1).slots];
      TableContents(after, NAME_SYSTABLE_OID).Ok? && bytes in TableContents(after, NAME_SYSTABLE_OID).value
  {
    var slots := PageOf(pages, p);
    var after := pages[p := Put(slots, bytes, -1).slots];
    assert Range(after, 0, 1) == [PageOf(after, 0)] && Range(pages, 0, 1) == [PageOf(pages, 0)];
    assert DirectoryRoots(after, 0) == DirectoryRoots(pages, 0);
    assert PageOf(after, p) == slots + [Slot(false, bytes)];
    assert (slots + [Slot(false, bytes)])[..|slots|] == slots;
    assert bytes in Live(PageOf(after, p));
    RowsOfPagesHas(after, TablePages(DirectoryRoots(pages, 0).value, 0), p, bytes);
  }

  // ===========================================================================
  // Searching the name table
  // ===========================================================================

  /**
   * `firstOrNull { it.value2 == name }?.value1` over the parsed records: the oid of the first
   * record with the name, none when no record has it. A record that does not parse before it
   * fails the search.
   */
  function FindName(rows: seq<seq<byte>>, name: Name): Result<Option<int>>
    decreases |rows|
  {
    if rows == [] then Ok(None)
    else
      match ParseOidName(rows[0])
      case Err(e) => Err(e)
      case Ok(record) => if record.name == name then Ok(Some(record.oid)) else FindName(rows[1..], name)
  }

  /** The records before `k` parse and none has the name. */
  predicate NoneNamed(rows: seq<seq<byte>>, name: Name, k: int) {
    forall j :: 0 <= j < k && j < |rows| ==> ParseOidName(rows[j]).Ok? && ParseOidName(rows[j]).value.name != name
  }

  /** Record `k` is the first with the name, and every record before it parses. */
  predicate FirstNamed(rows: seq<seq<byte>>, name: Name, k: int) {
    0 <= k < |rows| && NoneNamed(rows, name, k) && ParseOidName(rows[k]).Ok? && ParseOidName(rows[k]).value.name == name
  }

  /** When record `k` is the first with the name, the search finds its oid. */
  lemma {:induction false} FindNameFirst(rows: seq<seq<byte>>, name: Name, k: int)
    requires FirstNamed(rows, name, k)
    ensures FindName(rows, name) == Ok(Some(ParseOidName(rows[k]).value.oid))
    decreases k
  {
    if k > 0 {
      assert ParseOidName(rows[0]).Ok? && ParseOidName(rows[0]).value.name != name;
      var tail := rows[1..];
      assert forall j :: 0 <= j < |tail| ==> tail[j] == rows[j + 1];
      FindNameFirst(tail, name, k - 1);
    }
  }

  /** An oid the search finds is that of the first record with the name. */
  lemma {:induction false} FindNameFound(rows: seq<seq<byte>>, name: Name)
    requires FindName(rows, name).Ok? && FindName(rows, name).value.Some?
    ensures exists k :: FirstNamed(rows, name, k) && ParseOidName(rows[k]).value.oid == FindName(rows, name).value.value
    decreases |rows|
  {
    if ParseOidName(rows[0]).value.name == name {
      assert FirstNamed(rows, name, 0);
    } else {
      var tail := rows[1..];
      assert forall j :: 0 <= j < |tail| ==> tail[j] == rows[j + 1];
      FindNameFound(tail, name);
      var k :| FirstNamed(tail, name, k) && ParseOidName(tail[k]).value.oid == FindName(tail, name).value.value;
      assert FirstNamed(rows, name, k + 1);
    }
  }

  /** The search finds nothing exactly when every record parses and none has the name. */
  lemma {:induction false} FindNameNone(rows: seq<seq<byte>>, name: Name)
    ensures FindName(rows, name) == Ok(None) <==> NoneNamed(rows, name, |rows|)
    decreases |rows|
  {
    if rows != [] {
      var tail := rows[1..];
      assert forall j :: 0 <= j < |tail| ==> tail[j] == rows[j + 1];
      FindNameNone(tail, name);
      var head := ParseOidName(rows[0]);
      if head.Ok? && head.value.name != name {
        assert NoneNamed(rows, name, |rows|) <==> NoneNamed(tail, name, |tail|);
      }
    }
  }

  /** What `get` memoises for a name: the oid of its first record, `-1` when there is none. */
  function Lookup(pages: map<int, seq<Slot>>, name: Name): Result<int> {
    match TableContents(pages, NAME_SYSTABLE_OID)
    case Err(e) => Err(e)
    case Ok(rows) =>
      match FindName(rows, name)
      case Err(e) => Err(e)
      case Ok(found) => Ok(if found.Some? then found.value else -1)
  }

  /**
   * What `get` finds for `name` with the memo `cache`: the memoised oid, or else the result of
   * searching the name table.
   */
  function Resolved(cache: map<Name, int>, pages: map<int, seq<Slot>>, name: Name): Result<int> {
    if name in cache then Ok(cache[name]) else Lookup(pages, name)
  }

  /** Memoising a key twice keeps the second value. */
  lemma MemoOverwrite<K, V>(m: map<K, V>, k: K, a: V, b: V)
    ensures m[k := a][k := b] == m[k := b]
  {
  }

  /** Forgetting a key drops whatever was memoised for it. */
  lemma ForgetMemo<K, V>(m: map<K, V>, k: K, v: V)
    ensures m[k := v] - {k} == m - {k}
  {
  }

  /** `if (oid == -1) null else oid`: a memoised `-1` reads as no table. */
  function Present(oid: int): (r: Option<int>)
    ensures r.None? <==> oid == -1
    ensures r.Some? ==> r.value == oid
  {
    if oid == -1 then None else Some(oid)
  }

  /** `firstOrNull` over the scanned records, with the searching loop the iteration runs. */
  method SearchName(rows: seq<seq<byte>>, name: Name) returns (r: Result<Option<int>>)
    ensures r == FindName(rows, name)
  {
    var i := 0;
    while i < |rows|
      invariant 0 <= i <= |rows| && FindName(rows[i..], name) == FindName(rows, name)
      decreases |rows| - i
    {
      assert rows[i..][1..] == rows[i + 1..];
      var record := ParseOidName(rows[i]);
      if record.Err? {
        return Err(record.error);
      }
      if record.value.name == name {
        return Ok(Some(record.value.oid));
      }
      i := i + 1;
    }
    r := Ok(None);
  }

  /** `maxOf` folded over the oids of the parsed records, from `acc`; a record that does not parse fails the fold. */
  function MaxOid(rows: seq<seq<byte>>, acc: int): Result<int>
    decreases |rows|
  {
    if rows == [] then Ok(acc)
    else
      match ParseOidName(rows[0])
      case Err(e) => Err(e)
      case Ok(record) => MaxOid(rows[1..], if record.oid > acc then record.oid else acc)
  }

  /** The fold succeeds exactly when every record parses, and it is then at least `acc` and every stored oid. */
  lemma {:induction false} MaxOidBounds(rows: seq<seq<byte>>, acc: int)
    ensures MaxOid(rows, acc).Ok? <==> forall k :: 0 <= k < |rows| ==> ParseOidName(rows[k]).Ok?
    ensures MaxOid(rows, acc).Ok? ==> (MaxOid(rows, acc).value >= acc
      && forall k :: 0 <= k < |rows| ==> ParseOidName(rows[k]).value.oid <= MaxOid(rows, acc).value)
    decreases |rows|
  {
    if rows != [] {
      var tail := rows[1..];
      assert forall j :: 0 <= j < |tail| ==> tail[j] == rows[j + 1];
      var head := ParseOidName(rows[0]);
      if head.Ok? {
        MaxOidBounds(tail, if head.value.oid > acc then head.value.oid else acc);
      }
    }
  }

  /** The fold is `acc` or one of the stored oids. */
  lemma {:induction false} MaxOidAttained(rows: seq<seq<byte>>, acc: int)
    requires MaxOid(rows, acc).Ok?
    ensures MaxOid(rows, acc).value == acc
      || exists k :: 0 <= k < |rows| && ParseOidName(rows[k]).Ok? && ParseOidName(rows[k]).value.oid == MaxOid(rows, acc).value
    decreases |rows|
  {
    if rows != [] {
      var tail := rows[1..];
      var head := ParseOidName(rows[0]);
      if head.Ok? {
        var next := if head.value.oid > acc then head.value.oid else acc;
        MaxOidAttained(tail, next);
        var m := MaxOid(tail, next).value;
        if m != next {
          var k :| 0 <= k < |tail| && ParseOidName(tail[k]).Ok? && ParseOidName(tail[k]).value.oid == m;
          assert tail[k] == rows[k + 1];
        }
      }
    }
  }

  /** The `forEach { maxOid = maxOf(maxOid, it.value1) }` loop over the scanned records. */
  method FoldMaxOid(rows: seq<seq<byte>>, start: int) returns (r: Result<int>)
    ensures r == MaxOid(rows, start)
  {
    var maxOid := start;
    var i := 0;
    while i < |rows|
      invariant 0 <= i <= |rows| && MaxOid(rows[i..], maxOid) == MaxOid(rows, start)
      decreases |rows| - i
    {
      assert rows[i..][1..] == rows[i + 1..];
      var record := ParseOidName(rows[i]);
      if record.Err? {
        return Err(record.error);
      }
      maxOid := if record.value.oid > maxOid then record.value.oid else maxOid;
      i := i + 1;
    }
    assert rows[i..] == [];
    r := Ok(maxOid);
  }
}
