/**
 * Insertion-ordered key lists. The caches keep their `LinkedHashMap`/`LinkedHashSet`
 * iteration order as a sequence of distinct page ids.
 */
module Sequences {

  predicate NoDups(s: seq<int>) {
    forall i, j :: 0 <= i < j < |s| ==> s[i] != s[j]
  }

  /** `s` with `x` removed, the rest in order (`remove` on an insertion-ordered collection). */
  function Without(s: seq<int>, x: int): (r: seq<int>)
    ensures forall y :: y in r <==> y in s && y != x
    ensures NoDups(s) ==> NoDups(r)
    ensures x !in s ==> r == s
    ensures NoDups(s) && x in s ==> |r| == |s| - 1
    decreases |s|
  {
    if s == [] then []
    else
      var tail := Without(s[1..], x);
      if s[0] == x then
        assert NoDups(s) ==> x !in s[1..];
        tail
      else
        assert forall y :: y in tail ==> y in s[1..];
        assert NoDups(s) ==> s[0] !in s[1..] && NoDups(s[1..]);
        [s[0]] + tail
  }

  /** `s` after `add(x)` on an insertion-ordered set: `x` goes last unless it is already there. */
  function Added(s: seq<int>, x: int): (r: seq<int>)
    ensures forall y :: y in r <==> y in s || y == x
    ensures NoDups(s) ==> NoDups(r)
    ensures |r| == if x in s then |s| else |s| + 1
  {
    if x in s then s else s + [x]
  }

  /** `start until start + count`: the ids `start, start + 1, ...`, empty when `count <= 0`. */
  function Range(start: int, count: int): (r: seq<int>)
    ensures |r| == if count < 0 then 0 else count
    ensures forall i :: 0 <= i < |r| ==> r[i] == start + i
  {
    seq(if count < 0 then 0 else count, i => start + i)
  }

  /** The ids of a range are distinct. */
  lemma RangeDistinct(start: int, count: int)
    ensures NoDups(Range(start, count))
  {
  }

  /** The elements of `ids` that are not in `present`, in order. */
  function Missing(ids: seq<int>, present: set<int>): seq<int>
    decreases |ids|
  {
    if ids == [] then []
    else
      var front := Missing(ids[..|ids| - 1], present);
      var last := ids[|ids| - 1];
      if last in present then front else front + [last]
  }

  /** What is missing is exactly the absent ids, and it repeats none that `ids` does not. */
  lemma {:induction false} MissingMembers(ids: seq<int>, present: set<int>)
    ensures forall y :: y in Missing(ids, present) <==> y in ids && y !in present
    ensures NoDups(ids) ==> NoDups(Missing(ids, present))
    decreases |ids|
  {
    if ids != [] {
      var front := ids[..|ids| - 1];
      var last := ids[|ids| - 1];
      MissingMembers(front, present);
      assert ids == front + [last];
      var m := Missing(front, present);
      assert NoDups(ids) ==> NoDups(front) && last !in front;
      if NoDups(ids) && last !in present {
        forall i, j | 0 <= i < j < |m + [last]|
          ensures (m + [last])[i] != (m + [last])[j]
        {
          if j == |m| {
            assert (m + [last])[i] == m[i] && m[i] in m;
          }
        }
      }
    }
  }

  /** Taking one id more adds that id to what is missing, unless it is present. */
  lemma MissingStep(ids: seq<int>, i: int, present: set<int>)
    requires 0 <= i < |ids|
    ensures Missing(ids[..i + 1], present) == Missing(ids[..i], present) + (if ids[i] in present then [] else [ids[i]])
  {
    assert ids[..i + 1][..i] == ids[..i];
  }

  /**
   * Where a write-back loop over `ids` stops: the first id that is among `present` and is
   * negative, which storage rejects; `|ids|` when there is none.
   */
  function FlushStop(ids: seq<int>, present: set<int>): (n: nat)
    ensures n <= |ids|
    ensures forall j :: 0 <= j < n && ids[j] in present ==> ids[j] >= 0
    ensures n < |ids| ==> ids[n] in present && ids[n] < 0
  {
    if |ids| == 0 || (ids[0] in present && ids[0] < 0) then 0
    else
      var n := 1 + FlushStop(ids[1..], present);
      assert forall j :: 1 <= j < |ids| ==> ids[j] == ids[1..][j - 1];
      n
  }

  /** A loop that passed the first `i` ids and stops at `i` stops where `FlushStop` says. */
  lemma FlushStopAt(ids: seq<int>, present: set<int>, i: int)
    requires 0 <= i <= |ids|
    requires forall j :: 0 <= j < i && ids[j] in present ==> ids[j] >= 0
    requires i < |ids| ==> ids[i] in present && ids[i] < 0
    ensures FlushStop(ids, present) == i
  {
  }

  /** `o` lists the keys of `c`, each once: an insertion-ordered map. */
  ghost predicate Indexed<V>(c: map<int, V>, o: seq<int>) {
    NoDups(o) && (forall i :: 0 <= i < |o| ==> o[i] in c) && (forall id :: id in c ==> id in o)
  }

  lemma IndexedAdd<V>(c: map<int, V>, o: seq<int>, id: int, v: V)
    requires Indexed(c, o) && id !in c
    ensures Indexed(c[id := v], o + [id])
  {
    var o1 := o + [id];
    forall i, j | 0 <= i < j < |o1|
      ensures o1[i] != o1[j]
    {
      if j == |o| {
        assert o1[i] == o[i] && o[i] in c;
      }
    }
  }

  lemma IndexedRemove<V>(c: map<int, V>, o: seq<int>, id: int)
    requires Indexed(c, o)
    ensures Indexed(c - {id}, Without(o, id))
    ensures |Without(o, id)| == if id in c then |o| - 1 else |o|
  {
    var o1 := Without(o, id);
    assert forall i :: 0 <= i < |o1| ==> o1[i] in o && o1[i] != id;
  }
}
