/**
 * The log manager of the transaction layer. It keeps, for every running transaction, the
 * pages the transaction wrote (in first-write order, without repeats, as a `LinkedHashSet`),
 * one set of every page some running transaction wrote, and a write-ahead log. The default
 * log, `FakeWAL`, only appends one line of text per event. The storage wrapper
 * `RevertableStorage` drops the write-back of any page in that global set, so a page a
 * running transaction changed cannot reach the disk through a cache flush.
 */
module LogManagers {
  import opened Bytes
  import opened StorageApi
  import opened Text
  import opened DiskPages
  import opened DiskStorage

  // ===========================================================================
  // Log lines
  // ===========================================================================

  /** The events the log manager reports to the write-ahead log. */
  datatype Event =
    | Started(txn: int)
    | BeforeWrite(txn: int, pageId: int)
    | AfterWrite(txn: int, pageId: int)
    | Aborted(txn: int, modified: int)
    | Committed(txn: int, modified: int)

  /** Every number an event carries is an `Int`. */
  predicate Fits(e: Event) {
    match e
    case Started(t) => IsInt32(t)
    case BeforeWrite(t, p) => IsInt32(t) && IsInt32(p)
    case AfterWrite(t, p) => IsInt32(t) && IsInt32(p)
    case Aborted(t, k) => IsInt32(t) && IsInt32(k)
    case Committed(t, k) => IsInt32(t) && IsInt32(k)
  }

  function Wrap(prefix: string, middle: string, suffix: string): string {
    prefix + middle + suffix
  }

  /** Two numbers with the separator `[d] + tail` between them. */
  function Pair(a: int, d: char, tail: string, b: int): string {
    Decimal(a) + [d] + tail + Decimal(b)
  }

  /**
   * The line `FakeWAL` appends for an event: `<START T1>`, `<BEFORE T1, 7>`, `<AFTER T1, 7>`,
   * `<ABORT T1 (modified 2 pages)>` and `<COMMIT T1 (modified 2 pages)>`.
   */
  function Line(e: Event): string {
    match e
    case Started(t) => Wrap("<START T", Decimal(t), ">")
    case BeforeWrite(t, p) => Wrap("<BEFORE T", Pair(t, ',', " ", p), ">")
    case AfterWrite(t, p) => Wrap("<AFTER T", Pair(t, ',', " ", p), ">")
    case Aborted(t, k) => Wrap("<ABORT T", Pair(t, ' ', "(modified ", k), " pages)>")
    case Committed(t, k) => Wrap("<COMMIT T", Pair(t, ' ', "(modified ", k), " pages)>")
  }

  /** The lines of a list of events, in order. */
  function Lines(es: seq<Event>): (r: seq<string>)
    ensures |r| == |es| && forall k :: 0 <= k < |es| ==> r[k] == Line(es[k])
  {
    seq(|es|, k requires 0 <= k < |es| => Line(es[k]))
  }

  /** `s` starts with `prefix` and ends with `suffix`, and they do not overlap. */
  predicate Wraps(s: string, prefix: string, suffix: string) {
    |s| >= |prefix| + |suffix| && s[..|prefix|] == prefix && s[|s| - |suffix|..] == suffix
  }

  function Inner(s: string, prefix: string, suffix: string): string
    requires Wraps(s, prefix, suffix)
  {
    s[|prefix|..|s| - |suffix|]
  }

  /** The two numbers of a `Pair` line part, if `m` is one. */
  function Unpair(m: string, d: char, tail: string): Option<(int, int)> {
    var parts := SplitFirst(m, d);
    if |parts| == 2 && |parts[1]| >= |tail| && parts[1][..|tail|] == tail then
      match (ToInt(parts[0]), ToInt(parts[1][|tail|..]))
      case (Ok(a), Ok(b)) => Some((a, b))
      case _ => None
    else None
  }

  /** Reads a log line back into its event; `None` for any other text. */
  function ParseLine(s: string): Option<Event> {
    if Wraps(s, "<START T", ">") then
      match ToInt(Inner(s, "<START T", ">"))
      case Ok(t) => Some(Started(t))
      case Err(_) => None
    else if Wraps(s, "<BEFORE T", ">") then
      match Unpair(Inner(s, "<BEFORE T", ">"), ',', " ")
      case Some((t, p)) => Some(BeforeWrite(t, p))
      case None => None
    else if Wraps(s, "<AFTER T", ">") then
      match Unpair(Inner(s, "<AFTER T", ">"), ',', " ")
      case Some((t, p)) => Some(AfterWrite(t, p))
      case None => None
    else if Wraps(s, "<ABORT T", " pages)>") then
      match Unpair(Inner(s, "<ABORT T", " pages)>"), ' ', "(modified ")
      case Some((t, k)) => Some(Aborted(t, k))
      case None => None
    else if Wraps(s, "<COMMIT T", " pages)>") then
      match Unpair(Inner(s, "<COMMIT T", " pages)>"), ' ', "(modified ")
      case Some((t, k)) => Some(Committed(t, k))
      case None => None
    else None
  }

  lemma WrapInner(prefix: string, middle: string, suffix: string)
    ensures Wraps(Wrap(prefix, middle, suffix), prefix, suffix)
    ensures Inner(Wrap(prefix, middle, suffix), prefix, suffix) == middle
  {
    var s := Wrap(prefix, middle, suffix);
    assert s[..|prefix|] == prefix;
    assert s[|s| - |suffix|..] == suffix;
    assert s[|prefix|..|s| - |suffix|] == middle;
  }

  /** A line with one prefix does not have a prefix that differs from it at position `i`. */
  lemma WrapOther(prefix: string, middle: string, suffix: string, other: string, otherSuffix: string, i: nat)
    requires i < |prefix| && i < |other| && prefix[i] != other[i]
    ensures !Wraps(Wrap(prefix, middle, suffix), other, otherSuffix)
  {
    var s := Wrap(prefix, middle, suffix);
    assert s[i] == prefix[i];
  }

  /** `Int.toString()` writes digits and a minus sign only. */
  lemma DecimalChars(v: int)
    ensures forall c :: c in Decimal(v) ==> IsDigit(c) || c == '-'
  {
    var digits := Digits(if v < 0 then -v else v);
    forall c | c in digits
      ensures IsDigit(c)
    {
      var k :| 0 <= k < |digits| && digits[k] == c;
    }
  }

  lemma SplitFirstOf(a: string, b: string, d: char)
    requires d !in a
    ensures SplitFirst(a + [d] + b, d) == [a, b]
  {
    var s := a + [d] + b;
    assert s[..|a|] == a;
    IndexOfAt(s, d, |a|);
    assert s[|a| + 1..] == b;
  }

  lemma UnpairOf(x: string, d: char, tail: string, y: string, a: int, b: int)
    requires d !in x && ToInt(x) == Ok(a) && ToInt(y) == Ok(b)
    ensures Unpair(x + [d] + (tail + y), d, tail) == Some((a, b))
  {
    var rest := tail + y;
    SplitFirstOf(x, rest, d);
    assert rest[..|tail|] == tail && rest[|tail|..] == y;
  }

  lemma UnpairPair(a: int, d: char, tail: string, b: int)
    requires IsInt32(a) && IsInt32(b) && !IsDigit(d) && d != '-'
    ensures Unpair(Pair(a, d, tail, b), d, tail) == Some((a, b))
  {
    var x, y := Decimal(a), Decimal(b);
    DecimalChars(a);
    assert d !in x;
    ToIntDecimal(a);
    ToIntDecimal(b);
    assert Pair(a, d, tail, b) == x + [d] + (tail + y);
    UnpairOf(x, d, tail, y, a, b);
  }

  /** The log is readable: every line names its event and its numbers, so different events give different lines. */
  lemma ParseLineLine(e: Event)
    requires Fits(e)
    ensures ParseLine(Line(e)) == Some(e)
  {
    match e
    case Started(t) =>
      WrapInner("<START T", Decimal(t), ">");
      ToIntDecimal(t);
    case BeforeWrite(t, p) =>
      WrapOther("<BEFORE T", Pair(t, ',', " ", p), ">", "<START T", ">", 1);
      WrapInner("<BEFORE T", Pair(t, ',', " ", p), ">");
      UnpairPair(t, ',', " ", p);
    case AfterWrite(t, p) =>
      WrapOther("<AFTER T", Pair(t, ',', " ", p), ">", "<START T", ">", 1);
      WrapOther("<AFTER T", Pair(t, ',', " ", p), ">", "<BEFORE T", ">", 1);
      WrapInner("<AFTER T", Pair(t, ',', " ", p), ">");
      UnpairPair(t, ',', " ", p);
    case Aborted(t, k) =>
      WrapOther("<ABORT T", Pair(t, ' ', "(modified ", k), " pages)>", "<START T", ">", 1);
      WrapOther("<ABORT T", Pair(t, ' ', "(modified ", k), " pages)>", "<BEFORE T", ">", 1);
      WrapOther("<ABORT T", Pair(t, ' ', "(modified ", k), " pages)>", "<AFTER T", ">", 2);
      WrapInner("<ABORT T", Pair(t, ' ', "(modified ", k), " pages)>");
      UnpairPair(t, ' ', "(modified ", k);
    case Committed(t, k) =>
      WrapOther("<COMMIT T", Pair(t, ' ', "(modified ", k), " pages)>", "<START T", ">", 1);
      WrapOther("<COMMIT T", Pair(t, ' ', "(modified ", k), " pages)>", "<BEFORE T", ">", 1);
      WrapOther("<COMMIT T", Pair(t, ' ', "(modified ", k), " pages)>", "<AFTER T", ">", 1);
      WrapOther("<COMMIT T", Pair(t, ' ', "(modified ", k), " pages)>", "<ABORT T", " pages)>", 1);
      WrapInner("<COMMIT T", Pair(t, ' ', "(modified ", k), " pages)>");
      UnpairPair(t, ' ', "(modified ", k);
  }

  lemma WrapNoBreak(prefix: string, middle: string, suffix: string)
    requires '\n' !in prefix && '\n' !in middle && '\n' !in suffix
    ensures '\n' !in Wrap(prefix, middle, suffix)
  {
  }

  lemma PairNoBreak(a: int, d: char, tail: string, b: int)
    requires d != '\n' && '\n' !in tail
    ensures '\n' !in Pair(a, d, tail, b)
  {
    DecimalChars(a);
    DecimalChars(b);
  }

  /** No log line holds a line break. */
  lemma LineHasNoBreak(e: Event)
    ensures '\n' !in Line(e)
  {
    match e
    case Started(t) =>
      DecimalChars(t);
      WrapNoBreak("<START T", Decimal(t), ">");
    case BeforeWrite(t, p) =>
      PairNoBreak(t, ',', " ", p);
      WrapNoBreak("<BEFORE T", Pair(t, ',', " ", p), ">");
    case AfterWrite(t, p) =>
      PairNoBreak(t, ',', " ", p);
      WrapNoBreak("<AFTER T", Pair(t, ',', " ", p), ">");
    case Aborted(t, k) =>
      PairNoBreak(t, ' ', "(modified ", k);
      WrapNoBreak("<ABORT T", Pair(t, ' ', "(modified ", k), " pages)>");
    case Committed(t, k) =>
      PairNoBreak(t, ' ', "(modified ", k);
      WrapNoBreak("<COMMIT T", Pair(t, ' ', "(modified ", k), " pages)>");
  }

  /** `toString` loses nothing: splitting the text at line breaks gives back every event, in order. */
  lemma {:induction false} LogText(es: seq<Event>)
    requires es != [] && forall k :: 0 <= k < |es| ==> Fits(es[k])
    ensures |Split(Join(Lines(es), '\n'), '\n')| == |es|
    ensures forall k :: 0 <= k < |es| ==> ParseLine(Split(Join(Lines(es), '\n'), '\n')[k]) == Some(es[k])
  {
    forall k | 0 <= k < |es|
      ensures '\n' !in Lines(es)[k] && ParseLine(Lines(es)[k]) == Some(es[k])
    {
      LineHasNoBreak(es[k]);
      ParseLineLine(es[k]);
    }
    SplitJoin(Lines(es), '\n');
  }

  /** `FakeWAL`: the log as a list of lines. */
  class FakeWAL {
    var log: seq<string>
    /** The events behind the lines. */
    ghost var events: seq<Event>

    ghost predicate Valid()
      reads this
    {
      log == Lines(events)
    }

    constructor ()
      ensures Valid() && log == [] && events == []
    {
      log := [];
      events := [];
    }

    /** Appends the line of one event. */
    method Append(e: Event)
      requires Valid()
      modifies this
      ensures Valid() && log == old(log) + [Line(e)] && events == old(events) + [e]
    {
      log := log + [Line(e)];
      events := events + [e];
      assert log == Lines(events);
    }

    /** `transactionStarted`. */
    method TransactionStarted(txn: int)
      requires Valid()
      modifies this
      ensures Valid() && log == old(log) + [Line(Started(txn))] && events == old(events) + [Started(txn)]
    {
      Append(Started(txn));
    }

    /** `beforePageWrite`. */
    method BeforePageWrite(txn: int, pageId: int)
      requires Valid()
      modifies this
      ensures Valid() && log == old(log) + [Line(BeforeWrite(txn, pageId))] && events == old(events) + [BeforeWrite(txn, pageId)]
    {
      Append(BeforeWrite(txn, pageId));
    }

    /** `afterPageWrite`. */
    method AfterPageWrite(txn: int, pageId: int)
      requires Valid()
      modifies this
      ensures Valid() && log == old(log) + [Line(AfterWrite(txn, pageId))] && events == old(events) + [AfterWrite(txn, pageId)]
    {
      Append(AfterWrite(txn, pageId));
    }

    /** `transactionAborted`: the line counts the modified pages. */
    method TransactionAborted(txn: int, modified: seq<int>)
      requires Valid()
      modifies this
      ensures Valid() && log == old(log) + [Line(Aborted(txn, |modified|))] && events == old(events) + [Aborted(txn, |modified|)]
    {
      Append(Aborted(txn, |modified|));
    }

    /** `transactionCommitted`: the line counts the modified pages. */
    method TransactionCommitted(txn: int, modified: seq<int>)
      requires Valid()
      modifies this
      ensures Valid() && log == old(log) + [Line(Committed(txn, |modified|))] && events == old(events) + [Committed(txn, |modified|)]
    {
      Append(Committed(txn, |modified|));
    }

    /** `toString`: the lines joined with line breaks. */
    function ToString(): string
      reads this
    {
      Join(log, '\n')
    }
  }

  // ===========================================================================
  // Write sets
  // ===========================================================================

  /** No page repeats. */
  predicate NoDup(s: seq<int>) {
    forall i, j :: 0 <= i < j < |s| ==> s[i] != s[j]
  }

  /** `LinkedHashSet.add`: a new page goes at the end, a known one changes nothing. */
  function Add(s: seq<int>, x: int): (r: seq<int>)
    ensures NoDup(s) ==> NoDup(r)
    ensures forall y :: y in r <==> y in s || y == x
    ensures s <= r && (x in s ==> r == s)
  {
    if x in s then s else s + [x]
  }

  /** The bookkeeping of the log manager: the write set of each running transaction, and every page some of them wrote. */
  datatype Tracking = Tracking(txnWrites: map<int, seq<int>>, allWrites: set<int>)

  /** The pages `txn` wrote, none if it wrote nothing. */
  function WritesOf(w: map<int, seq<int>>, txn: int): seq<int> {
    if txn in w then w[txn] else []
  }

  /** Write sets are sets, and a transaction has one only after it wrote a page. */
  predicate WriteSets(s: Tracking) {
    forall t :: t in s.txnWrites ==> s.txnWrites[t] != [] && NoDup(s.txnWrites[t])
  }

  /** Every page marked as written belongs to a running transaction's write set. */
  predicate Covered(s: Tracking) {
    forall p :: p in s.allWrites ==> exists t :: t in s.txnWrites && p in s.txnWrites[t]
  }

  /** No page is in two write sets, as a scheduler that blocks writers keeps it. */
  predicate Disjoint(w: map<int, seq<int>>) {
    forall t, u, p :: t in w && u in w && t != u && p in w[t] ==> p !in w[u]
  }

  /** The marked pages are exactly the pages of the write sets. */
  predicate Exact(s: Tracking) {
    Covered(s) && forall t, p :: t in s.txnWrites && p in s.txnWrites[t] ==> p in s.allWrites
  }

  /** The tracker of `start(txn)`, told that `txn` writes `pageId`. */
  function Tracked(s: Tracking, txn: int, pageId: int): (r: Tracking)
    ensures r.txnWrites.Keys == s.txnWrites.Keys + {txn} && r.allWrites == s.allWrites + {pageId}
    ensures r.txnWrites[txn] == Add(WritesOf(s.txnWrites, txn), pageId)
    ensures forall t :: t in s.txnWrites && t != txn ==> r.txnWrites[t] == s.txnWrites[t]
  {
    Tracking(s.txnWrites[txn := Add(WritesOf(s.txnWrites, txn), pageId)], s.allWrites + {pageId})
  }

  /**
   * `commit(txn)` and `abort(txn)`: the write set of `txn` is dropped, and so is the mark of
   * each of its pages, even a page another running transaction also wrote. A transaction that
   * wrote nothing changes nothing.
   */
  function Finish(s: Tracking, txn: int): (r: Tracking)
    ensures r.txnWrites.Keys == s.txnWrites.Keys - {txn}
    ensures forall t :: t in r.txnWrites ==> r.txnWrites[t] == s.txnWrites[t]
    ensures forall p :: p in r.allWrites <==> p in s.allWrites && p !in WritesOf(s.txnWrites, txn)
  {
    if txn in s.txnWrites then Tracking(s.txnWrites - {txn}, s.allWrites - set p | p in s.txnWrites[txn])
    else s
  }

  lemma TrackKeeps(s: Tracking, txn: int, pageId: int)
    requires WriteSets(s) && Covered(s)
    ensures WriteSets(Tracked(s, txn, pageId)) && Covered(Tracked(s, txn, pageId))
  {
    var r := Tracked(s, txn, pageId);
    forall p | p in r.allWrites
      ensures exists t :: t in r.txnWrites && p in r.txnWrites[t]
    {
      if p == pageId {
        assert p in r.txnWrites[txn];
      } else {
        var t :| t in s.txnWrites && p in s.txnWrites[t];
        assert p in r.txnWrites[t];
      }
    }
  }

  /** Finishing keeps every mark covered, whichever transaction finishes. */
  lemma FinishKeeps(s: Tracking, txn: int)
    requires WriteSets(s) && Covered(s)
    ensures WriteSets(Finish(s, txn)) && Covered(Finish(s, txn))
  {
    var r := Finish(s, txn);
    forall p | p in r.allWrites
      ensures exists t :: t in r.txnWrites && p in r.txnWrites[t]
    {
      var t :| t in s.txnWrites && p in s.txnWrites[t];
      assert t != txn;
      assert p in r.txnWrites[t];
    }
  }

  /** A write keeps the marks exact. */
  lemma TrackExact(s: Tracking, txn: int, pageId: int)
    requires WriteSets(s) && Exact(s)
    ensures Exact(Tracked(s, txn, pageId))
  {
    TrackKeeps(s, txn, pageId);
  }

  /** With disjoint write sets, finishing keeps the marks exact: every page of another running transaction stays protected. */
  lemma FinishExact(s: Tracking, txn: int)
    requires WriteSets(s) && Exact(s) && Disjoint(s.txnWrites)
    ensures Exact(Finish(s, txn)) && Disjoint(Finish(s, txn).txnWrites)
  {
    FinishKeeps(s, txn);
    var r := Finish(s, txn);
    forall t, p | t in r.txnWrites && p in r.txnWrites[t]
      ensures p in r.allWrites
    {
      assert p in s.allWrites;
      if txn in s.txnWrites {
        assert p !in s.txnWrites[txn];
      }
    }
  }

  /** When two running transactions wrote the same page, finishing one of them unprotects the page the other still holds. */
  lemma FinishShared(s: Tracking, txn: int, other: int, pageId: int)
    requires txn != other && other in s.txnWrites && pageId in s.txnWrites[other] && pageId in WritesOf(s.txnWrites, txn)
    ensures other in Finish(s, txn).txnWrites && pageId in Finish(s, txn).txnWrites[other]
    ensures pageId !in Finish(s, txn).allWrites
  {
  }

  /** A transaction that writes one page and commits leaves the write sets as they were and the page unmarked. */
  lemma TrackFinish(s: Tracking, txn: int, pageId: int)
    requires txn !in s.txnWrites
    ensures Finish(Tracked(s, txn, pageId), txn) == Tracking(s.txnWrites, s.allWrites - {pageId})
  {
    var r := Finish(Tracked(s, txn, pageId), txn);
    assert r.txnWrites.Keys == s.txnWrites.Keys;
    forall t | t in s.txnWrites
      ensures t in r.txnWrites && r.txnWrites[t] == s.txnWrites[t]
    {
    }
    assert r.txnWrites == s.txnWrites;
    assert r.allWrites == s.allWrites - {pageId};
  }

  // ===========================================================================
  // The log manager
  // ===========================================================================

  class LogManager {
    var txnWrites: map<int, seq<int>>
    var allWrites: set<int>
    /** The pages whose cached copy `abort` reset to its state before the transaction, in order. */
    var resets: seq<int>
    const wal: FakeWAL

    ghost predicate Valid()
      reads this, wal
    {
      wal.Valid() && WriteSets(State()) && Covered(State())
    }

    function State(): Tracking
      reads this
    {
      Tracking(txnWrites, allWrites)
    }

    constructor (wal: FakeWAL)
      requires wal.Valid()
      ensures this.wal == wal && Valid() && txnWrites == map[] && allWrites == {} && resets == []
    {
      this.wal := wal;
      txnWrites := map[];
      allWrites := {};
      resets := [];
    }

    /** `start(txn)`: the log records the start; the tracker it hands out is `Track`. */
    method Start(txn: int)
      requires Valid()
      modifies wal
      ensures Valid()
      ensures wal.log == old(wal.log) + [Line(Started(txn))] && wal.events == old(wal.events) + [Started(txn)]
    {
      wal.TransactionStarted(txn);
    }

    /**
     * The tracker of `start(txn)`: before a write the log records `BEFORE`, after it `AFTER`;
     * either way the page joins the write set of `txn` and the marked pages.
     */
    method Track(txn: int, pageId: int, writeDone: bool)
      requires Valid()
      modifies this, wal
      ensures Valid() && State() == Tracked(old(State()), txn, pageId) && resets == old(resets)
      ensures IsTxnModified(pageId)
      ensures wal.events == old(wal.events) + [if writeDone then AfterWrite(txn, pageId) else BeforeWrite(txn, pageId)]
      ensures wal.log == old(wal.log) + [Line(if writeDone then AfterWrite(txn, pageId) else BeforeWrite(txn, pageId))]
    {
      if !writeDone {
        wal.BeforePageWrite(txn, pageId);
      }
      TrackKeeps(State(), txn, pageId);
      txnWrites := txnWrites[txn := Add(WritesOf(txnWrites, txn), pageId)];
      allWrites := allWrites + {pageId};
      if writeDone {
        wal.AfterPageWrite(txn, pageId);
      }
    }

    /**
     * `abort(txn)`: the write set of `txn` is dropped with its marks, each of its pages is
     * reset in first-write order, and the log records the abort with the number of pages.
     * A transaction that wrote nothing changes nothing and is not logged.
     */
    method Abort(txn: int)
      requires Valid()
      modifies this, wal
      ensures Valid() && State() == Finish(old(State()), txn)
      ensures resets == old(resets) + WritesOf(old(txnWrites), txn)
      ensures txn in old(txnWrites) ==>
        wal.events == old(wal.events) + [Aborted(txn, |old(txnWrites)[txn]|)]
        && wal.log == old(wal.log) + [Line(Aborted(txn, |old(txnWrites)[txn]|))]
      ensures txn !in old(txnWrites) ==> wal.events == old(wal.events) && wal.log == old(wal.log)
    {
      if txn in txnWrites {
        var modified := txnWrites[txn];
        FinishKeeps(State(), txn);
        txnWrites := txnWrites - {txn};
        allWrites := allWrites - set p | p in modified;
        ResetAll(modified);
        wal.TransactionAborted(txn, modified);
      }
    }

    /** `modifiedPages.forEach { pageCache.get(it).reset() }`: each page is reset, in order. */
    method ResetAll(pages: seq<int>)
      modifies this
      ensures resets == old(resets) + pages && txnWrites == old(txnWrites) && allWrites == old(allWrites)
    {
      var i := 0;
      while i < |pages|
        invariant 0 <= i <= |pages| && resets == old(resets) + pages[..i]
        invariant txnWrites == old(txnWrites) && allWrites == old(allWrites)
      {
        resets := resets + [pages[i]];
        i := i + 1;
      }
    }

    /**
     * `commit(txn)`: the write set of `txn` is dropped with its marks and the log records the
     * commit with the number of pages. A transaction that wrote nothing is not logged.
     */
    method Commit(txn: int)
      requires Valid()
      modifies this, wal
      ensures Valid() && State() == Finish(old(State()), txn) && resets == old(resets)
      ensures txn in old(txnWrites) ==>
        wal.events == old(wal.events) + [Committed(txn, |old(txnWrites)[txn]|)]
        && wal.log == old(wal.log) + [Line(Committed(txn, |old(txnWrites)[txn]|))]
      ensures txn !in old(txnWrites) ==> wal.events == old(wal.events) && wal.log == old(wal.log)
    {
      if txn in txnWrites {
        var modified := txnWrites[txn];
        FinishKeeps(State(), txn);
        txnWrites := txnWrites - {txn};
        allWrites := allWrites - set p | p in modified;
        wal.TransactionCommitted(txn, modified);
      }
    }

    /** `isTxnModified(pageId)`: the page is marked as written by a running transaction. */
    predicate IsTxnModified(pageId: int)
      reads this
    {
      pageId in allWrites
    }
  }

  /** `RevertableStorage`: writes go to the real storage unless a running transaction marked the page. */
  class RevertableStorage {
    const realStorage: Storage
    const manager: LogManager

    constructor (realStorage: Storage, manager: LogManager)
      ensures this.realStorage == realStorage && this.manager == manager
    {
      this.realStorage := realStorage;
      this.manager := manager;
    }

    /** `write(page)`: dropped for a marked page, otherwise `writePage` of the real storage. */
    method Write(page: DiskPage) returns (r: Result<()>)
      requires realStorage.Valid()
      modifies realStorage
      ensures realStorage.Valid()
      ensures manager.IsTxnModified(page.id) ==> r == Ok(()) && realStorage.pageMap == old(realStorage.pageMap)
      ensures !manager.IsTxnModified(page.id) && page.id < 0 ==>
        r == Err(IllegalArgument) && realStorage.pageMap == old(realStorage.pageMap)
      ensures !manager.IsTxnModified(page.id) && page.id >= 0 ==>
        r == Ok(()) && realStorage.pageMap == old(realStorage.pageMap)[page.id := page]
    {
      if manager.IsTxnModified(page.id) {
        return Ok(());
      }
      r := realStorage.WritePage(page);
    }
  }

  /** `NoRecovery.run`: recovery does nothing, so both storages keep every page. */
  method NoRecoveryRun(walStorage: Storage, mainStorage: Storage)
    ensures walStorage.pageMap == old(walStorage.pageMap) && mainStorage.pageMap == old(mainStorage.pageMap)
  {
  }
}
