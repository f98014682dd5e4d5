/**
 * Sequence numbers of the sync libraries (`uint64_t`) and the inclusive
 * ranges `low..high` that the missing-data callbacks walk.
 */
module SeqNos {
  import opened Results

  const SeqNoLimit := 0x1_0000_0000_0000_0000
  type SeqNo = x: int | 0 <= x < SeqNoLimit
  const MaxSeqNo: SeqNo := SeqNoLimit - 1

  /** The numbers `lo, lo + 1, ..., hi` in ascending order; empty when `lo > hi`. */
  function SeqRange(lo: int, hi: int): (r: seq<int>)
    ensures |r| == if lo <= hi then hi - lo + 1 else 0
    ensures forall k :: 0 <= k < |r| ==> r[k] == lo + k
    decreases hi - lo
  {
    if lo > hi then [] else SeqRange(lo, hi - 1) + [hi]
  }

  /** `++s` on a `uint64_t`. */
  function WrapIncrement(s: SeqNo): SeqNo {
    if s == MaxSeqNo then 0 else s + 1
  }

  /**
   * The loop `for (s = low; s <= high; ++s)` over `uint64_t` as written,
   * allowed `fuel` iterations: `Some(visited)` with the values of `s` its body
   * saw, in order, when its guard fails; `None` when it is still running.
   */
  function AsWrittenVisits(s: SeqNo, high: SeqNo, fuel: nat): Option<seq<int>>
    decreases fuel
  {
    if s > high then Some([])
    else if fuel == 0 then None
    else
      match AsWrittenVisits(WrapIncrement(s), high, fuel - 1)
      case None => None
      case Some(rest) => Some([s] + rest)
  }

  /** With `high` the largest `uint64_t`, the guard `s <= high` never fails: the loop does not stop. */
  lemma {:induction false} AsWrittenNeverStopsAtMax(s: SeqNo, fuel: nat)
    ensures AsWrittenVisits(s, MaxSeqNo, fuel) == None
    decreases fuel
  {
    if fuel > 0 {
      AsWrittenNeverStopsAtMax(WrapIncrement(s), fuel - 1);
    }
  }

  /** Below that bound the loop as written visits exactly `SeqRange(low, high)`, in order. */
  lemma {:induction false} AsWrittenAgreesBelowMax(low: SeqNo, high: SeqNo, fuel: nat)
    requires high < MaxSeqNo && fuel >= |SeqRange(low, high)|
    ensures AsWrittenVisits(low, high, fuel) == Some(SeqRange(low, high))
    decreases high - low + 1
  {
    if low <= high {
      AsWrittenAgreesBelowMax(low + 1, high, fuel - 1);
      RangeCons(low, high);
    }
  }

  /** A non-empty range is its first number followed by the rest. */
  lemma RangeCons(lo: int, hi: int)
    requires lo <= hi
    ensures SeqRange(lo, hi) == [lo] + SeqRange(lo + 1, hi)
  {
    var r, t := SeqRange(lo, hi), [lo] + SeqRange(lo + 1, hi);
    assert |r| == |t|;
    forall k | 0 <= k < |r| ensures r[k] == t[k] {
      if k > 0 {
        assert t[k] == SeqRange(lo + 1, hi)[k - 1];
      }
    }
  }
}
