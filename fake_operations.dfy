/**
 * The stand-in relational operators: `FakeMergeSort`, which reads a whole table, orders its
 * records by a key with a stable sort and writes them into one new page of the table
 * `output`, and `FakeNestedLoops`, which pairs every left record with every right record of
 * equal join attribute and hands the pairs out through an iterator.
 *
 * A table scan is given as its rows: the key (or join attribute) the caller's function
 * computes for a record, with the record's bytes.
 */
module FakeOperations {
  import opened Bytes
  import opened StorageApi
  import opened PageLayout
  import opened PageModel
  import opened PageStores

  /** A scanned record: its key, and its bytes. */
  type Row = (int, seq<byte>)

  // ===========================================================================
  // The stable order of `sortedBy`
  // ===========================================================================

  /** Row `a` goes before row `b`: a smaller key, or the same key and an earlier position. */
  predicate Before(rows: seq<Row>, a: nat, b: nat) {
    a < |rows| && b < |rows| && (rows[a].0 < rows[b].0 || (rows[a].0 == rows[b].0 && a < b))
  }

  /** `s` lists row positions in strictly increasing `Before` order. */
  predicate Ordered(rows: seq<Row>, s: seq<nat>) {
    (forall k :: 0 <= k < |s| ==> s[k] < |rows|)
    && forall i, j :: 0 <= i < j < |s| ==> Before(rows, s[i], s[j])
  }

  /** Puts position `x` into its place in `s`. */
  function Insert(rows: seq<Row>, x: nat, s: seq<nat>): (r: seq<nat>)
    requires x < |rows| && x !in s && Ordered(rows, s)
    ensures Ordered(rows, r) && |r| == |s| + 1
    ensures forall y :: y in r <==> y == x || y in s
  {
    if s == [] then [x]
    else if Before(rows, x, s[0]) then
      [x] + s
    else
      assert forall y :: y in s[1..] ==> Before(rows, s[0], y) by {
        forall y | y in s[1..] ensures Before(rows, s[0], y) {
          var k :| 0 <= k < |s[1..]| && s[1..][k] == y;
          assert s[k + 1] == y;
        }
      }
      [s[0]] + Insert(rows, x, s[1..])
  }

  /** Positions `0, ..., n - 1` in `Before` order. */
  function SortPrefix(rows: seq<Row>, n: nat): (r: seq<nat>)
    requires n <= |rows|
    ensures Ordered(rows, r) && |r| == n && forall y :: y in r <==> 0 <= y < n
  {
    if n == 0 then [] else Insert(rows, n - 1, SortPrefix(rows, n - 1))
  }

  /** The positions of the rows in the order `mapIndexed { index, t -> t to index }.sortedBy { it.first }` gives. */
  function StableOrder(rows: seq<Row>): (r: seq<nat>)
    ensures Ordered(rows, r) && |r| == |rows| && forall y :: y in r <==> 0 <= y < |rows|
  {
    SortPrefix(rows, |rows|)
  }

  /**
   * There is only one such order: two strictly ordered lists of the same positions are the
   * same list. So `StableOrder` is exactly the order by key, ties in scan order.
   */
  lemma {:induction false} OrderedUnique(rows: seq<Row>, s: seq<nat>, t: seq<nat>)
    requires Ordered(rows, s) && Ordered(rows, t) && forall y :: y in s <==> y in t
    ensures s == t
    decreases |s|
  {
    if s == [] {
      assert forall k :: 0 <= k < |t| ==> t[k] !in s;
    } else {
      assert s[0] in s && t != [] && t[0] in t;
      assert s[0] == t[0];
      forall y
        ensures y in s[1..] <==> y in t[1..]
      {
        if y in s[1..] {
          var k :| 0 <= k < |s[1..]| && s[1..][k] == y;
          assert Before(rows, s[0], s[k + 1]);
          assert y in t;
        }
        if y in t[1..] {
          var k :| 0 <= k < |t[1..]| && t[1..][k] == y;
          assert Before(rows, t[0], t[k + 1]);
          assert y in s;
        }
      }
      OrderedUnique(rows, s[1..], t[1..]);
      assert s == [s[0]] + s[1..] && t == [t[0]] + t[1..];
    }
  }

  /** The positions `0, ..., n - 1` in increasing order. */
  function Iota(n: nat): (r: seq<nat>)
    ensures |r| == n && forall k :: 0 <= k < n ==> r[k] == k
  {
    seq(n, k requires 0 <= k < n => k)
  }

  /** Rows already in key order stay in scan order: the order is the identity. */
  lemma SortedStays(rows: seq<Row>)
    requires forall i, j :: 0 <= i < j < |rows| ==> rows[i].0 <= rows[j].0
    ensures StableOrder(rows) == Iota(|rows|)
  {
    var id := Iota(|rows|);
    assert Ordered(rows, id);
    forall y
      ensures y in id <==> y in StableOrder(rows)
    {
      if 0 <= y < |rows| {
        assert id[y] == y;
      }
    }
    OrderedUnique(rows, id, StableOrder(rows));
  }

  /** The record bytes of the rows in sorted order. */
  function SortedRecords(rows: seq<Row>): (r: seq<seq<byte>>)
    ensures |r| == |rows| && forall k :: 0 <= k < |r| ==> r[k] == rows[StableOrder(rows)[k]].1
  {
    var order := StableOrder(rows);
    seq(|order|, k requires 0 <= k < |order| => rows[order[k]].1)
  }

  // ===========================================================================
  // Writing the sorted records
  // ===========================================================================

  /** The slots of a page after `putRecord(r)` of every record in order, whatever each put reports. */
  function PutAll(slots: seq<Slot>, records: seq<seq<byte>>): seq<Slot>
    decreases |records|
  {
    if records == [] then slots
    else Put(PutAll(slots, records[..|records| - 1]), records[|records| - 1], -1).slots
  }

  /** Live slots holding the records, in order. */
  function LiveSlots(records: seq<seq<byte>>): (r: seq<Slot>)
    ensures |r| == |records| && forall k :: 0 <= k < |r| ==> r[k] == Slot(false, records[k])
    decreases |records|
  {
    if records == [] then [] else LiveSlots(records[..|records| - 1]) + [Slot(false, records[|records| - 1])]
  }

  /** The room the records take on a page: their bytes and one directory entry each. */
  function Need(records: seq<seq<byte>>): int
    decreases |records|
  {
    if records == [] then 0 else Need(records[..|records| - 1]) + |records[|records| - 1]| + ENTRY_SIZE
  }

  /** An append that fits: the record goes live at the end and takes its room. */
  lemma AppendFits(t: seq<Slot>, data: seq<byte>)
    requires |data| + ENTRY_SIZE <= Free(t)
    ensures Put(t, data, -1).slots == t + [Slot(false, data)]
    ensures Free(t + [Slot(false, data)]) == Free(t) - |data| - ENTRY_SIZE
  {
    TotalSizeAppend(t, Slot(false, data));
  }

  /** When the page has room for every record, each put appends. */
  lemma {:induction false} PutAllFits(slots: seq<Slot>, records: seq<seq<byte>>)
    requires Need(records) <= Free(slots)
    ensures PutAll(slots, records) == slots + LiveSlots(records)
    ensures Free(PutAll(slots, records)) == Free(slots) - Need(records)
    decreases |records|
  {
    if records != [] {
      var n := |records|;
      var front := records[..n - 1];
      var last := records[n - 1];
      assert Need(records) == Need(front) + |last| + ENTRY_SIZE;
      PutAllFits(slots, front);
      var t := slots + LiveSlots(front);
      AppendFits(t, last);
    }
  }

  /** The loop of `sort`: puts every record into page `id`, in order, ignoring what each put reports. */
  method PutEach(store: PageStore, id: int, records: seq<seq<byte>>)
    modifies store
    ensures forall q :: PageOf(store.pages, q) == if q == id then PutAll(PageOf(old(store.pages), id), records) else PageOf(old(store.pages), q)
    ensures store.pins == old(store.pins)
  {
    var k := 0;
    while k < |records|
      invariant 0 <= k <= |records| && store.pins == old(store.pins)
      invariant forall q :: PageOf(store.pages, q) == if q == id then PutAll(PageOf(old(store.pages), id), records[..k]) else PageOf(old(store.pages), q)
    {
      assert records[..k + 1][..k] == records[..k];
      var _ := store.PutRecord(id, records[k], -1);
      k := k + 1;
    }
    assert records[..k] == records;
  }

  /**
   * `FakeMergeSort.sort`: the output page is pinned, every record is put into it in sorted
   * order, whatever each put reports, and the page is closed again. The name of the result
   * table is `output`, unless the close fails.
   */
  method Sort(store: PageStore, rows: seq<Row>, outPage: int) returns (r: Result<string>)
    modifies store
    ensures forall q :: PageOf(store.pages, q) == if q == outPage then PutAll(PageOf(old(store.pages), outPage), SortedRecords(rows)) else PageOf(old(store.pages), q)
    ensures store.pins == old(store.pins)
    ensures r == if outPage !in old(store.pins) && outPage < 0 then Err(IllegalArgument) else Ok("output")
  {
    store.GetAndPin(outPage);
    PutEach(store, outPage, SortedRecords(rows));
    UnpinPin(old(store.pins), outPage);
    var closed := store.Close(outPage);
    r := if closed.Err? then Err(closed.error) else Ok("output");
  }

  /** Sorted input fits on an empty page in scan order: scanning `output` gives the input back. */
  lemma SortSortedInput(rows: seq<Row>)
    requires forall i, j :: 0 <= i < j < |rows| ==> rows[i].0 <= rows[j].0
    requires Need(SortedRecords(rows)) <= Free([])
    ensures PutAll([], SortedRecords(rows)) == LiveSlots(seq(|rows|, k requires 0 <= k < |rows| => rows[k].1))
  {
    SortedStays(rows);
    PutAllFits([], SortedRecords(rows));
    assert SortedRecords(rows) == seq(|rows|, k requires 0 <= k < |rows| => rows[k].1);
  }

  // ===========================================================================
  // The nested-loop join
  // ===========================================================================

  /** Lexicographic order of position pairs: left-major, then right. */
  predicate PairBefore(p: (nat, nat), q: (nat, nat)) {
    p.0 < q.0 || (p.0 == q.0 && p.1 < q.1)
  }

  /** The positions `j` of `right` whose key is `key`, paired with `i`, in order. */
  function Matches(i: nat, key: int, right: seq<Row>): (r: seq<(nat, nat)>)
    ensures forall p :: p in r <==> p.0 == i && p.1 < |right| && right[p.1].0 == key
    ensures forall a, b :: 0 <= a < b < |r| ==> r[a].0 == i && r[a].1 < r[b].1
    decreases |right|
  {
    if right == [] then []
    else
      var m := |right| - 1;
      Matches(i, key, right[..m]) + (if right[m].0 == key then [(i, m)] else [])
  }

  /** The position pairs with equal keys, left-major, then right: the specification of the join. */
  function JoinIndices(left: seq<Row>, right: seq<Row>): (r: seq<(nat, nat)>)
    ensures forall p :: p in r <==> p.0 < |left| && p.1 < |right| && left[p.0].0 == right[p.1].0
    ensures forall a, b :: 0 <= a < b < |r| ==> PairBefore(r[a], r[b])
    decreases |left|
  {
    if left == [] then []
    else
      var n := |left| - 1;
      var front := JoinIndices(left[..n], right);
      var last := Matches(n, left[n].0, right);
      assert forall a :: 0 <= a < |front| ==> front[a].0 < n by {
        forall a | 0 <= a < |front| ensures front[a].0 < n {
          assert front[a] in front;
        }
      }
      assert forall b :: 0 <= b < |last| ==> last[b].0 == n by {
        forall b | 0 <= b < |last| ensures last[b].0 == n {
          assert last[b] in last;
        }
      }
      front + last
  }

  /** The output row of a pair of positions: the left bytes with the right bytes. */
  function Pick(left: seq<Row>, right: seq<Row>, p: (nat, nat)): (r: (seq<byte>, seq<byte>))
    ensures p.0 < |left| && p.1 < |right| ==> r == (left[p.0].1, right[p.1].1)
  {
    if p.0 < |left| && p.1 < |right| then (left[p.0].1, right[p.1].1) else ([], [])
  }

  /** The output rows of a list of position pairs, in order. */
  function Project(left: seq<Row>, right: seq<Row>, ps: seq<(nat, nat)>): (r: seq<(seq<byte>, seq<byte>)>)
    ensures |r| == |ps| && forall k :: 0 <= k < |ps| ==> r[k] == Pick(left, right, ps[k])
  {
    seq(|ps|, k requires 0 <= k < |ps| => Pick(left, right, ps[k]))
  }

  /** The position pairs of the first `i + 1` left rows: those of the first `i`, then the matches of row `i`. */
  lemma JoinIndicesStep(left: seq<Row>, right: seq<Row>, i: nat)
    requires i < |left|
    ensures JoinIndices(left[..i + 1], right) == JoinIndices(left[..i], right) + Matches(i, left[i].0, right)
  {
    assert left[..i + 1][..i] == left[..i];
  }

  lemma MatchesStep(i: nat, key: int, right: seq<Row>, j: nat)
    requires j < |right|
    ensures Matches(i, key, right[..j + 1]) == Matches(i, key, right[..j]) + (if right[j].0 == key then [(i, j)] else [])
  {
    assert right[..j + 1][..j] == right[..j];
  }

  lemma ProjectAppend(left: seq<Row>, right: seq<Row>, ps: seq<(nat, nat)>, qs: seq<(nat, nat)>)
    ensures Project(left, right, ps + qs) == Project(left, right, ps) + Project(left, right, qs)
  {
  }

  /** The inner loop of `join`: the output rows of left row `i` against every right row. */
  method MatchRow(left: seq<Row>, right: seq<Row>, i: nat) returns (rows: seq<(seq<byte>, seq<byte>)>)
    requires i < |left|
    ensures rows == Project(left, right, Matches(i, left[i].0, right))
  {
    rows := [];
    var j := 0;
    while j < |right|
      invariant 0 <= j <= |right| && rows == Project(left, right, Matches(i, left[i].0, right[..j]))
    {
      MatchesStep(i, left[i].0, right, j);
      if left[i].0 == right[j].0 {
        ProjectAppend(left, right, Matches(i, left[i].0, right[..j]), [(i, j)]);
        rows := rows + [(left[i].1, right[j].1)];
      }
      j := j + 1;
    }
    assert right[..j] == right;
  }

  /**
   * `FakeNestedLoops.join`: for each left row, in order, every right row with an equal key,
   * in order; each output row holds the left bytes and the right bytes as scanned.
   */
  method NestedLoops(left: seq<Row>, right: seq<Row>) returns (output: JoinOutput)
    ensures fresh(output) && output.position == 0
    ensures output.output == Project(left, right, JoinIndices(left, right))
  {
    var rows: seq<(seq<byte>, seq<byte>)> := [];
    var i := 0;
    while i < |left|
      invariant 0 <= i <= |left| && rows == Project(left, right, JoinIndices(left[..i], right))
    {
      var more := MatchRow(left, right, i);
      JoinIndicesStep(left, right, i);
      ProjectAppend(left, right, JoinIndices(left[..i], right), Matches(i, left[i].0, right));
      rows := rows + more;
      i := i + 1;
    }
    assert left[..i] == left;
    output := new JoinOutput(rows);
  }

  /** The iterator the join returns: the precomputed rows, in order. */
  class JoinOutput {
    const output: seq<(seq<byte>, seq<byte>)>
    var position: nat

    ghost predicate Valid()
      reads this
    {
      position <= |output|
    }

    constructor (output: seq<(seq<byte>, seq<byte>)>)
      ensures this.output == output && position == 0 && Valid()
    {
      this.output := output;
      position := 0;
    }

    /** `hasNext()`. */
    predicate HasNext()
      reads this
    {
      position < |output|
    }

    /** `next()`: the next row, or `NoSuchElementException` past the end. */
    method Next() returns (r: Result<(seq<byte>, seq<byte>)>)
      requires Valid()
      modifies this
      ensures Valid()
      ensures old(position) < |output| ==> r == Ok(output[old(position)]) && position == old(position) + 1
      ensures old(position) == |output| ==> r == Err(NoSuchElement) && position == old(position)
    {
      if position < |output| {
        r := Ok(output[position]);
        position := position + 1;
      } else {
        r := Err(NoSuchElement);
      }
    }

    /** `close()` does nothing. */
    method Close() {
    }

    /** Draining the iterator with `hasNext`/`next` gives the rest of the rows, in order. */
    method Drain() returns (rows: seq<(seq<byte>, seq<byte>)>)
      requires Valid()
      modifies this
      ensures Valid() && rows == old(output[position..]) && !HasNext()
    {
      rows := [];
      while HasNext()
        invariant Valid() && rows + output[position..] == old(output[position..])
        decreases |output| - position
      {
        var r := Next();
        assert output[old(position)..] == [output[old(position)]] + output[old(position) + 1..];
        rows := rows + [r.value];
      }
    }
  }
}
