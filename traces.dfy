/**
 * Facts about effect traces that the three harness modules share: every
 * harness appends effects to a trace and draws its timer delays from one
 * `Timing.Config`.
 */
module Traces {
  import opened Timing

  lemma AppendAssoc<T>(a: seq<T>, b: seq<T>, c: seq<T>)
    ensures (a + b) + c == a + (b + c)
  {
  }

  /** Appending no delay, or one in-range delay, keeps every delay in range. */
  lemma DelaysExtend(a: seq<int>, b: seq<int>, cfg: Config, delay: int)
    requires forall d :: d in a ==> cfg.InRange(d)
    requires cfg.InRange(delay) && (b == [] || b == [delay])
    ensures forall d :: d in a + b ==> cfg.InRange(d)
  {
  }
}
