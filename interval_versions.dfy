/**
 * The two copies of the interval domain side by side: the older one
 * (domain/interval.go) and the one the analyzer uses (pkg/domain/interval.go).
 * They agree on order, join and narrowing; their widenings differ exactly on
 * equal finite high bounds and on equal +inf low bounds.
 */
module IntervalVersions {
  import C = Intervals
  import L = LegacyIntervals

  function LiftBound(e: L.Endpoint): (r: C.Bound)
    ensures r.Endpoint? <==> e.Int?
    ensures r.MInf? <==> e.MInf?
  {
    match e
    case MInf => C.MInf
    case Int(v) => C.Endpoint(v)
    case Inf => C.Inf
  }

  function Lift(i: L.Interval): (r: C.Interval)
    ensures r.Bot? <==> i.Bot?
  {
    match i
    case Bot => C.Bot
    case Range(l, h) => C.Range(LiftBound(l), LiftBound(h))
  }

  lemma LiftInjective(a: L.Interval, b: L.Interval)
    requires Lift(a) == Lift(b)
    ensures a == b
  {
    if a.Range? {
      assert LiftBound(a.low) == LiftBound(b.low) && LiftBound(a.high) == LiftBound(b.high);
    }
  }

  /** The older EPOrder and InterOrder are EPSLE and InterOrder of the current copy. */
  lemma OrdersAgree(a: L.Endpoint, b: L.Endpoint, i: L.Interval, j: L.Interval)
    ensures L.EPOrder(a, b) == C.EPSLE(LiftBound(a), LiftBound(b))
    ensures L.InterOrder(i, j) == C.InterOrder(Lift(i), Lift(j))
  {
  }

  /** Both copies join and narrow alike. */
  lemma JoinNarrowAgree(i: L.Interval, j: L.Interval)
    ensures Lift(L.InterJoin(i, j)) == C.InterJoin(Lift(i), Lift(j))
    ensures Lift(L.InterNarrow(i, j)) == C.InterNarrow(Lift(i), Lift(j))
  {
    OrdersAgree(L.MInf, L.MInf, i, j);
    OrdersAgree(L.MInf, L.MInf, j, i);
    if i.Range? && j.Range? {
      OrdersAgree(i.low, j.low, i, j);
      OrdersAgree(i.high, j.high, i, j);
    }
  }

  /**
   * The widenings agree except when both high bounds are the same finite
   * value (the older copy jumps to +inf, the current one keeps it) or both
   * low bounds are +inf (the current copy drops to -inf through the EPSLT
   * quirk, the older one keeps it).
   */
  lemma WidenDifference(i: L.Interval, j: L.Interval)
    ensures Lift(L.InterWiden(i, j)) == C.InterWiden(Lift(i), Lift(j)) <==>
      !(i.Range? && j.Range? &&
        ((i.high == j.high && i.high.Int?) || (i.low == j.low && i.low.Inf?)))
  {
    if i.Range? && j.Range? {
      var lw, cw := Lift(L.InterWiden(i, j)), C.InterWiden(Lift(i), Lift(j));
      OrdersAgree(i.low, j.low, i, j);
      OrdersAgree(i.high, j.high, i, j);
      assert lw.lbound == cw.lbound <==> !(i.low == j.low && i.low.Inf?);
      assert lw.ubound == cw.ubound <==> !(i.high == j.high && i.high.Int?);
    }
  }

  /** widen([0, 5], [0, 5]) is [0, +inf] in the older copy and [0, 5] in the current one. */
  lemma WidenExample()
    ensures L.InterWiden(L.Range(L.Int(0), L.Int(5)), L.Range(L.Int(0), L.Int(5))) == L.Range(L.Int(0), L.Inf)
    ensures C.InterWiden(C.Range(C.Endpoint(0), C.Endpoint(5)), C.Range(C.Endpoint(0), C.Endpoint(5)))
         == C.Range(C.Endpoint(0), C.Endpoint(5))
  {
  }
}
