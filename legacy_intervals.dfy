/**
 * The older copy of the interval domain (domain/interval.go). Same shape as
 * Intervals, but its bounds are ordered by EPOrder only, its InterRange has
 * no check, and its widening jumps a high bound to +inf as soon as the new
 * high bound is not below the old one, equality included.
 */
module LegacyIntervals {

  /** An interval bound: MInf (-inf), a finite Int, or Inf (+inf). */
  datatype Endpoint = MInf | Int(v: int) | Inf

  /** An abstract value: Bot, or the range [low, high]. */
  datatype Interval = Bot | Range(low: Endpoint, high: Endpoint)

  /** The greatest bound. */
  function EPTop(): (e: Endpoint)
    ensures forall a :: EPOrder(a, e)
  {
    Inf
  }

  /** The least bound. */
  function EPBot(): (e: Endpoint)
    ensures forall a :: EPOrder(e, a)
  {
    MInf
  }

  /** A finite bound, strictly between EPBot() and EPTop(). */
  function EPVal(v: int): (e: Endpoint)
    ensures EPOrder(EPBot(), e) && EPOrder(e, EPTop()) && e != EPBot() && e != EPTop()
  {
    Int(v)
  }

  /** EPVal embeds the integers with their order. */
  lemma EPValOrder(v: int, w: int)
    ensures EPOrder(EPVal(v), EPVal(w)) <==> v <= w
  {
  }

  /** Order on bounds. */
  predicate EPOrder(ep1: Endpoint, ep2: Endpoint)
  {
    match ep1
    case MInf => true
    case Int(v1) =>
      (match ep2
       case MInf => false
       case Int(v2) => v1 <= v2
       case Inf => true)
    case Inf => ep2.Inf?
  }

  /** EPOrder is a total order: reflexive, antisymmetric, transitive and total. */
  lemma EPOrderIsTotalOrder(a: Endpoint, b: Endpoint, c: Endpoint)
    ensures EPOrder(a, a)
    ensures EPOrder(a, b) && EPOrder(b, a) ==> a == b
    ensures EPOrder(a, b) && EPOrder(b, c) ==> EPOrder(a, c)
    ensures EPOrder(a, b) || EPOrder(b, a)
  {
  }

  function InterBot(): (r: Interval)
    ensures forall i :: InterOrder(r, i)
  {
    Bot
  }

  /** A range with the given bounds, whatever their order. */
  function InterRange(low: Endpoint, high: Endpoint): (r: Interval)
    ensures r.Range? && r.low == low && r.high == high
  {
    Range(low, high)
  }

  /** Top is [EPBot(), EPTop()] = [-inf, +inf], above every interval. */
  function InterTop(): (r: Interval)
    ensures r == Range(MInf, Inf)
    ensures forall i :: InterOrder(i, r)
  {
    Range(EPBot(), EPTop())
  }

  /** i1 is subsumed by i2. */
  predicate InterOrder(i1: Interval, i2: Interval)
  {
    match i1
    case Bot => true
    case Range(l1, h1) =>
      (match i2
       case Bot => false
       case Range(l2, h2) => EPOrder(l2, l1) && EPOrder(h1, h2))
  }

  /** Bot is below everything, a range is never below Bot, ranges compare by containment. */
  lemma InterOrderIsPartialOrder(a: Interval, b: Interval, c: Interval)
    ensures InterOrder(a, a)
    ensures InterOrder(a, b) && InterOrder(b, a) ==> a == b
    ensures InterOrder(a, b) && InterOrder(b, c) ==> InterOrder(a, c)
    ensures InterOrder(Bot, a)
    ensures a.Range? ==> !InterOrder(a, Bot)
    ensures a.Range? && b.Range? ==>
      (InterOrder(a, b) <==> EPOrder(b.low, a.low) && EPOrder(a.high, b.high))
  {
  }

  /** Join: the subsuming operand if there is one, else [min low, max high]. */
  function InterJoin(i1: Interval, i2: Interval): (r: Interval)
    ensures InterOrder(i1, r) && InterOrder(i2, r)
    ensures InterOrder(i1, i2) ==> r == i2
    ensures InterOrder(i2, i1) ==> r == i1
  {
    if InterOrder(i1, i2) then
      i2
    else if InterOrder(i2, i1) then
      i1
    else
      var newLow := if EPOrder(i1.low, i2.low) then i1.low else i2.low;
      var newHigh := if EPOrder(i1.high, i2.high) then i2.high else i1.high;
      InterRange(newLow, newHigh)
  }

  /**
   * Widening: the low bound is kept iff it is at most the new low bound,
   * else it becomes -inf; the high bound becomes +inf whenever it is at most
   * the new high bound (equality included), else it is kept.
   */
  function InterWiden(i1: Interval, i2: Interval): (r: Interval)
    ensures i1.Bot? ==> r == i2
    ensures i2.Bot? ==> r == i1
    ensures i1.Range? && i2.Range? ==>
      r.Range? &&
      (r.low == (if EPOrder(i1.low, i2.low) then i1.low else MInf)) &&
      (r.high == (if EPOrder(i1.high, i2.high) then Inf else i1.high))
    ensures InterOrder(i1, r) && InterOrder(i2, r)
  {
    match i1
    case Bot => i2
    case Range(l1, h1) =>
      (match i2
       case Bot => i1
       case Range(l2, h2) =>
         var newLow := if EPOrder(l1, l2) then l1 else EPBot();
         var newHigh := if EPOrder(h1, h2) then EPTop() else h1;
         InterRange(newLow, newHigh))
  }

  /** Widening a range with a finite high bound by itself sends that bound to +inf. */
  lemma InterWidenEqualHigh(a: Interval)
    requires a.Range? && a.high.Int?
    ensures InterWiden(a, a) == Range(a.low, Inf)
  {
  }

  /** Narrowing: Bot if either side is Bot, else only the infinite bounds of i1 are replaced by i2's. */
  function InterNarrow(i1: Interval, i2: Interval): (r: Interval)
    ensures i1.Bot? || i2.Bot? ==> r == Bot
    ensures i1.Range? && i2.Range? ==>
      r.Range? &&
      r.low == (if i1.low == MInf then i2.low else i1.low) &&
      r.high == (if i1.high == Inf then i2.high else i1.high)
    ensures InterOrder(r, i1)
    ensures InterOrder(i2, i1) ==> InterOrder(i2, r)
  {
    match i1
    case Bot => InterBot()
    case Range(l1, h1) =>
      (match i2
       case Bot => InterBot()
       case Range(l2, h2) =>
         var newLow := if l1 == EPBot() then l2 else l1;
         var newHigh := if h1 == EPTop() then h2 else h1;
         InterRange(newLow, newHigh))
  }
}
