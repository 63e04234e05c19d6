/**
 * The scheduler side of transactions: the verdicts a scheduler gives on reads and writes,
 * the `FakeScheduler` that allows everything, and the blocking scheduler of the transaction
 * manager test, under which the first transaction to write blocks every other writer until it
 * commits or aborts.
 */
module Schedulers {

  /** What a scheduler answers to a read: go ahead on a page, abort, or wait for a transaction. */
  datatype ReadResult = ReadOk(page: int) | ReadAbort(reason: string) | ReadWait(blockingTxn: int)

  /** What a scheduler answers to a write: go ahead, abort, or wait for a transaction. */
  datatype WriteResult = WriteOk | WriteAbort(reason: string) | WriteWait(blockingTxn: int)

  // ===========================================================================
  // FakeScheduler
  // ===========================================================================

  /** `FakeScheduler.read`. */
  function FakeRead(txn: int, page: int): ReadResult {
    ReadOk(page)
  }

  /** `FakeScheduler.write`. */
  function FakeWrite(txn: int, page: int): WriteResult {
    WriteOk
  }

  /** `FakeScheduler.commit` and `abort`: nobody was waiting. */
  function FakeFinish(txn: int): seq<int> {
    []
  }

  /** The fake scheduler never makes anyone wait or abort: reads get their own page, writes go ahead, and nothing is resumed. */
  lemma FakeNeverBlocks(txn: int, page: int)
    ensures FakeRead(txn, page) == ReadOk(page) && FakeWrite(txn, page).WriteOk? && FakeFinish(txn) == []
  {
  }

  // ===========================================================================
  // The blocking scheduler as a state machine
  // ===========================================================================

  /** The blocking scheduler's state: the transaction holding the write block (`-1` for none) and every writer that had to wait, oldest first. */
  datatype Blocking = Blocking(blocker: int, waitQueue: seq<int>)

  /** The actions that change the blocking scheduler. */
  datatype Action = Write(txn: int) | Commit(txn: int) | Abort(txn: int)

  /** What an action answers: a write verdict, or the transactions to resume. */
  datatype Answer = Wrote(verdict: WriteResult) | Resumed(txns: seq<int>)

  /**
   * One action. A write goes ahead when nobody holds the block (the writer then holds it)
   * or the writer holds it; otherwise the writer joins the wait queue and waits for the
   * holder. A commit or an abort by the holder releases the block and hands out the whole
   * queue, which is kept; from anyone else it does nothing.
   */
  function Step(s: Blocking, a: Action): (Blocking, Answer) {
    match a
    case Write(txn) =>
      if s.blocker == -1 then (Blocking(txn, s.waitQueue), Wrote(WriteOk))
      else if s.blocker == txn then (s, Wrote(WriteOk))
      else (Blocking(s.blocker, s.waitQueue + [txn]), Wrote(WriteWait(s.blocker)))
    case Commit(txn) =>
      if s.blocker == txn then (Blocking(-1, s.waitQueue), Resumed(s.waitQueue)) else (s, Resumed([]))
    case Abort(txn) =>
      if s.blocker == txn then (Blocking(-1, s.waitQueue), Resumed(s.waitQueue)) else (s, Resumed([]))
  }

  /** The state after a list of actions. */
  function After(s: Blocking, actions: seq<Action>): Blocking
    decreases |actions|
  {
    if actions == [] then s else After(Step(s, actions[0]).0, actions[1..])
  }

  /** The answers to a list of actions, in order. */
  function Answers(s: Blocking, actions: seq<Action>): (r: seq<Answer>)
    ensures |r| == |actions|
    decreases |actions|
  {
    if actions == [] then [] else [Step(s, actions[0]).1] + Answers(Step(s, actions[0]).0, actions[1..])
  }

  /** `a` is a commit or an abort by `txn`. */
  predicate Finishes(a: Action, txn: int) {
    (a.Commit? || a.Abort?) && a.txn == txn
  }

  /**
   * Mutual exclusion: while the holder of the block neither commits nor aborts, it keeps the
   * block and every write by another transaction waits for it.
   */
  lemma {:induction false} HolderExcludes(s: Blocking, actions: seq<Action>)
    requires s.blocker != -1
    requires forall i :: 0 <= i < |actions| ==> !Finishes(actions[i], s.blocker)
    ensures After(s, actions).blocker == s.blocker
    ensures forall i :: 0 <= i < |actions| && actions[i].Write? && actions[i].txn != s.blocker ==>
      Answers(s, actions)[i] == Wrote(WriteWait(s.blocker))
    decreases |actions|
  {
    if actions != [] {
      var next := Step(s, actions[0]).0;
      assert next.blocker == s.blocker;
      HolderExcludes(next, actions[1..]);
      assert forall i :: 1 <= i < |actions| ==> Answers(s, actions)[i] == Answers(next, actions[1..])[i - 1];
    }
  }

  /** The wait queue is never cleared: every action keeps the old queue as a prefix, so a transaction that waited once is in every later hand-out. */
  lemma {:induction false} QueueOnlyGrows(s: Blocking, actions: seq<Action>)
    ensures s.waitQueue <= After(s, actions).waitQueue
    decreases |actions|
  {
    if actions != [] {
      var next := Step(s, actions[0]).0;
      QueueOnlyGrows(next, actions[1..]);
      assert s.waitQueue <= next.waitQueue;
    }
  }

  /** A write that had to wait is answered with its waiting transaction by the holder's next commit or abort. */
  lemma WaiterResumed(s: Blocking, txn: int, finish: Action)
    requires s.blocker != -1 && s.blocker != txn && Finishes(finish, s.blocker)
    ensures var waited := Step(s, Write(txn)).0;
      Step(waited, finish).1 == Resumed(waited.waitQueue) && txn in Step(waited, finish).1.txns
      && Step(waited, finish).0.blocker == -1
  {
  }

  // ===========================================================================
  // The blocking scheduler as an object
  // ===========================================================================

  /** `BlockAllOnWriteScheduler`. */
  class BlockAllOnWriteScheduler {
    var blockingTxn: int
    var waitQueue: seq<int>

    constructor ()
      ensures blockingTxn == -1 && waitQueue == []
    {
      blockingTxn := -1;
      waitQueue := [];
    }

    function State(): Blocking
      reads this
    {
      Blocking(blockingTxn, waitQueue)
    }

    /** `read`: every read goes ahead on its own page. */
    method Read(txn: int, page: int) returns (r: ReadResult)
      ensures r == ReadOk(page)
    {
      r := ReadOk(page);
    }

    /** `write`: one step of the state machine. */
    method Write(txn: int, page: int) returns (r: WriteResult)
      modifies this
      ensures (State(), Wrote(r)) == Step(old(State()), Action.Write(txn))
    {
      if blockingTxn == -1 {
        blockingTxn := txn;
        r := WriteOk;
      } else if blockingTxn == txn {
        r := WriteOk;
      } else {
        waitQueue := waitQueue + [txn];
        r := WriteWait(blockingTxn);
      }
    }

    /** `commit`: one step of the state machine. */
    method Commit(txn: int) returns (resumed: seq<int>)
      modifies this
      ensures (State(), Resumed(resumed)) == Step(old(State()), Action.Commit(txn))
    {
      if blockingTxn == txn {
        blockingTxn := -1;
        resumed := waitQueue;
      } else {
        resumed := [];
      }
    }

    /** `abort`: one step of the state machine. */
    method Abort(txn: int) returns (resumed: seq<int>)
      modifies this
      ensures (State(), Resumed(resumed)) == Step(old(State()), Action.Abort(txn))
    {
      if blockingTxn == txn {
        blockingTxn := -1;
        resumed := waitQueue;
      } else {
        resumed := [];
      }
    }
  }

  /**
   * The test scenario: transaction 2 writes page 10 and goes ahead; transaction 1 then wants
   * page 11 and waits for 2; 2 commits and hands out 1; 1 retries and goes ahead.
   */
  method Scenario() returns (first: WriteResult, second: WriteResult, resumed: seq<int>, retried: WriteResult)
    ensures first == WriteOk && second == WriteWait(2) && 1 in resumed && retried == WriteOk
  {
    var scheduler := new BlockAllOnWriteScheduler();
    first := scheduler.Write(2, 10);
    second := scheduler.Write(1, 11);
    resumed := scheduler.Commit(2);
    retried := scheduler.Write(1, 11);
  }
}
