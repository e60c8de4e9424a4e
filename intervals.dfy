/**
 * The interval abstract domain that the analyzer uses (pkg/domain/interval.go):
 * bounds are integers extended with -inf and +inf, an interval is either
 * Bot (no possible value) or a closed range of bounds.
 *
 * Integers are mathematical: the source's finite bounds are Go `int`, whose
 * overflow in products and sums is not modelled.
 */
module Intervals {

  /** An interval bound: MInf (-inf), a finite Endpoint, or Inf (+inf). */
  datatype Bound = MInf | Endpoint(epval: int) | Inf

  /** An abstract value: Bot, or the range [lbound, ubound] (the bounds are not checked for order). */
  datatype Interval = Bot | Range(lbound: Bound, ubound: Bound)

  // ---------------------------------------------------------------------------
  // Bounds
  // ---------------------------------------------------------------------------

  /** Non-strict order on bounds. */
  predicate EPSLE(ep1: Bound, ep2: Bound)
  {
    match ep1
    case MInf => true
    case Endpoint(v1) =>
      (match ep2
       case MInf => false
       case Endpoint(v2) => v1 <= v2
       case Inf => true)
    case Inf => ep2.Inf?
  }

  /** "Strict" order on bounds, as written: it also holds between two equal infinities. */
  predicate EPSLT(ep1: Bound, ep2: Bound)
  {
    match ep1
    case MInf => true
    case Endpoint(v1) =>
      (match ep2
       case MInf => false
       case Endpoint(v2) => v1 < v2
       case Inf => true)
    case Inf => ep2.Inf?
  }

  /** EPSLE is a total order with MInf least, Inf greatest and finite bounds ordered by value. */
  lemma EPSLEIsTotalOrder(a: Bound, b: Bound, c: Bound)
    ensures EPSLE(a, a)
    ensures EPSLE(a, b) && EPSLE(b, a) ==> a == b
    ensures EPSLE(a, b) && EPSLE(b, c) ==> EPSLE(a, c)
    ensures EPSLE(a, b) || EPSLE(b, a)
    ensures EPSLE(MInf, a) && EPSLE(a, Inf)
    ensures a.Endpoint? && b.Endpoint? ==> (EPSLE(a, b) <==> a.epval <= b.epval)
  {
  }

  lemma EPSLETrans(a: Bound, b: Bound, c: Bound)
    requires EPSLE(a, b) && EPSLE(b, c)
    ensures EPSLE(a, c)
  {
  }

  /**
   * EPSLT is the strict order except that MInf < MInf and Inf < Inf hold:
   * it answers true exactly for a strictly smaller bound or for two equal infinities.
   */
  lemma EPSLTCharacterization(a: Bound, b: Bound)
    ensures EPSLT(a, b) <==> (EPSLE(a, b) && a != b) || (a == b && !a.Endpoint?)
    ensures EPSLT(MInf, MInf) && EPSLT(Inf, Inf)
    ensures !EPSLT(a, b) <==> (EPSLE(b, a) && !(a == b && !a.Endpoint?))
  {
  }

  /** The sign of a bound: -1, 0 or 1. */
  function Sign(e: Bound): int
  {
    match e
    case MInf => -1
    case Endpoint(v) => if v < 0 then -1 else if v > 0 then 1 else 0
    case Inf => 1
  }

  /**
   * Product of two bounds. Finite times finite is the integer product; when an
   * infinity takes part, a zero operand gives finite 0 and otherwise the result
   * is the infinity whose sign is the product of the operands' signs.
   */
  function EPMult(ep1: Bound, ep2: Bound): (r: Bound)
    ensures ep1.Endpoint? && ep2.Endpoint? ==> r == Endpoint(ep1.epval * ep2.epval)
    ensures !(ep1.Endpoint? && ep2.Endpoint?) ==>
      r == (if Sign(ep1) * Sign(ep2) == 0 then Endpoint(0)
            else if Sign(ep1) * Sign(ep2) > 0 then Inf else MInf)
  {
    match ep1
    case MInf =>
      (match ep2
       case Inf => MInf
       case MInf => Inf
       case Endpoint(v2) => if v2 < 0 then Inf else if v2 > 0 then MInf else Endpoint(0))
    case Inf =>
      (match ep2
       case Inf => Inf
       case MInf => MInf
       case Endpoint(v2) => if v2 < 0 then MInf else if v2 > 0 then Inf else Endpoint(0))
    case Endpoint(v1) =>
      (match ep2
       case Inf => if v1 < 0 then MInf else if v1 > 0 then Inf else Endpoint(0)
       case MInf => if v1 < 0 then Inf else if v1 > 0 then MInf else Endpoint(0)
       case Endpoint(v2) => Endpoint(v1 * v2))
  }

  /** EPMult is commutative and the sign of a product is the product of the signs. */
  lemma EPMultCommutes(a: Bound, b: Bound)
    ensures EPMult(a, b) == EPMult(b, a)
    ensures Sign(EPMult(a, b)) == Sign(a) * Sign(b)
  {
    if a.Endpoint? && b.Endpoint? {
      SignOfProduct(a.epval, b.epval);
    }
  }

  lemma SignOfProduct(x: int, y: int)
    ensures Sign(Endpoint(x * y)) == Sign(Endpoint(x)) * Sign(Endpoint(y))
  {
    if x > 0 && y > 0 { MulMonotone(0, x, y); }
    if x > 0 && y < 0 { MulMonotone(0, x, y); }
    if x < 0 && y > 0 { MulMonotone(x, 0, y); }
    if x < 0 && y < 0 { MulMonotone(x, 0, y); }
  }

  // ---------------------------------------------------------------------------
  // Intervals and their meaning
  // ---------------------------------------------------------------------------

  /** The integers an interval stands for: x is in [l, u] when l <= x <= u. */
  predicate Contains(i: Interval, x: int)
  {
    i.Range? && EPSLE(i.lbound, Endpoint(x)) && EPSLE(Endpoint(x), i.ubound)
  }

  /**
   * The shape the arithmetic accepts without a failed type assertion: the low
   * bound is not +inf and the high bound is not -inf.
   */
  predicate WellBounded(i: Interval)
  {
    i.Bot? || (!i.lbound.Inf? && !i.ubound.MInf?)
  }

  /** A range holding an integer is well bounded. */
  lemma ContainsWellBounded(i: Interval, x: int)
    requires Contains(i, x)
    ensures WellBounded(i)
  {
  }

  /** Bot stands for no value and lies below every interval. */
  function InterBot(): (r: Interval)
    ensures forall x :: !Contains(r, x)
    ensures forall i :: InterOrder(r, i)
  {
    Bot
  }

  /** A range stands for the integers between its bounds. */
  function InterRange(lbound: Bound, ubound: Bound): (r: Interval)
    ensures r != Bot
    ensures forall x :: Contains(r, x) <==> EPSLE(lbound, Endpoint(x)) && EPSLE(Endpoint(x), ubound)
  {
    Range(lbound, ubound)
  }

  /** Top = [-inf, +inf] stands for every integer and lies above every interval. */
  function InterTop(): (r: Interval)
    ensures WellBounded(r)
    ensures forall x :: Contains(r, x)
    ensures forall i :: InterOrder(i, r)
  {
    Range(MInf, Inf)
  }

  // ---------------------------------------------------------------------------
  // Lattice structure
  // ---------------------------------------------------------------------------

  /** i1 is subsumed by i2. */
  predicate InterOrder(i1: Interval, i2: Interval)
  {
    match i1
    case Bot => true
    case Range(l1, u1) =>
      (match i2
       case Bot => false
       case Range(l2, u2) => EPSLE(l2, l1) && EPSLE(u1, u2))
  }

  /**
   * InterOrder is a partial order: Bot below everything, a range never below
   * Bot, ranges ordered by containment of their bounds.
   */
  lemma InterOrderIsPartialOrder(a: Interval, b: Interval, c: Interval)
    ensures InterOrder(a, a)
    ensures InterOrder(a, b) && InterOrder(b, a) ==> a == b
    ensures InterOrder(a, b) && InterOrder(b, c) ==> InterOrder(a, c)
    ensures InterOrder(Bot, a)
    ensures a.Range? ==> !InterOrder(a, Bot)
    ensures a.Range? && b.Range? ==>
      (InterOrder(a, b) <==> EPSLE(b.lbound, a.lbound) && EPSLE(a.ubound, b.ubound))
  {
    if InterOrder(a, b) && InterOrder(b, c) && a.Range? {
      EPSLETrans(c.lbound, b.lbound, a.lbound);
      EPSLETrans(a.ubound, b.ubound, c.ubound);
    }
  }

  lemma InterOrderTrans(a: Interval, b: Interval, c: Interval)
    requires InterOrder(a, b) && InterOrder(b, c)
    ensures InterOrder(a, c)
  {
    InterOrderIsPartialOrder(a, b, c);
  }

  /** The order is sound: a subsumed interval stands for fewer integers. */
  lemma InterOrderSound(a: Interval, b: Interval, x: int)
    requires InterOrder(a, b) && Contains(a, x)
    ensures Contains(b, x)
  {
    EPSLETrans(b.lbound, a.lbound, Endpoint(x));
    EPSLETrans(Endpoint(x), a.ubound, b.ubound);
  }

  /**
   * Join: the subsuming operand when one subsumes the other, otherwise the
   * range from the smaller low bound to the larger high bound.
   */
  function InterJoin(i1: Interval, i2: Interval): (r: Interval)
    ensures InterOrder(i1, r) && InterOrder(i2, r)
    ensures InterOrder(i1, i2) ==> r == i2
    ensures InterOrder(i2, i1) ==> r == i1
    ensures WellBounded(i1) && WellBounded(i2) ==> WellBounded(r)
  {
    if InterOrder(i1, i2) then
      i2
    else if InterOrder(i2, i1) then
      i1
    else
      var newLbound := if EPSLE(i1.lbound, i2.lbound) then i1.lbound else i2.lbound;
      var newUbound := if EPSLE(i1.ubound, i2.ubound) then i2.ubound else i1.ubound;
      InterRange(newLbound, newUbound)
  }

  /** Join is the least upper bound. */
  lemma {:induction false} InterJoinLeast(a: Interval, b: Interval, c: Interval)
    requires InterOrder(a, c) && InterOrder(b, c)
    ensures InterOrder(InterJoin(a, b), c)
  {
    if !InterOrder(a, b) && !InterOrder(b, a) {
      var j := InterJoin(a, b);
      EPSLEIsTotalOrder(a.lbound, b.lbound, c.lbound);
      EPSLEIsTotalOrder(a.ubound, b.ubound, c.ubound);
      assert EPSLE(c.lbound, j.lbound);
      assert EPSLE(j.ubound, c.ubound);
    }
  }

  /** Join is commutative and associative. */
  lemma {:induction false} InterJoinCommAssoc(a: Interval, b: Interval, c: Interval)
    ensures InterJoin(a, b) == InterJoin(b, a)
    ensures InterJoin(InterJoin(a, b), c) == InterJoin(a, InterJoin(b, c))
  {
    var ab, ba := InterJoin(a, b), InterJoin(b, a);
    InterJoinLeast(a, b, ba);
    InterJoinLeast(b, a, ab);
    InterOrderIsPartialOrder(ab, ba, ab);
    var l, r := InterJoin(ab, c), InterJoin(a, InterJoin(b, c));
    var bc := InterJoin(b, c);
    InterOrderTrans(a, ab, l);
    InterOrderTrans(b, ab, l);
    InterJoinLeast(b, c, l);
    InterJoinLeast(a, bc, l);
    InterOrderTrans(b, bc, r);
    InterOrderTrans(c, bc, r);
    InterJoinLeast(a, b, r);
    InterJoinLeast(ab, c, r);
    InterOrderIsPartialOrder(l, r, l);
  }

  /**
   * Widening: Bot is an identity on either side; a bound of the first operand
   * that the second does not exceed is kept, otherwise it jumps to infinity.
   */
  function InterWiden(i1: Interval, i2: Interval): (r: Interval)
    ensures i1.Bot? ==> r == i2
    ensures i2.Bot? ==> r == i1
    ensures InterOrder(i1, r) && InterOrder(i2, r)
    ensures i1.Range? && i2.Range? ==>
      r.Range? && (r.lbound == i1.lbound || r.lbound == MInf) && (r.ubound == i1.ubound || r.ubound == Inf)
    ensures i1.Range? && i2.Range? && WellBounded(i1) ==>
      (r.lbound == i1.lbound <==> EPSLE(i1.lbound, i2.lbound)) &&
      (r.ubound == i1.ubound <==> EPSLE(i2.ubound, i1.ubound))
    ensures WellBounded(i1) && WellBounded(i2) ==> WellBounded(r)
  {
    match i1
    case Bot => i2
    case Range(l1, u1) =>
      (match i2
       case Bot => i1
       case Range(l2, u2) =>
         var newLbound := if EPSLT(l2, l1) then MInf else l1;
         var newUbound := if EPSLT(u1, u2) then Inf else u1;
         InterRange(newLbound, newUbound))
  }

  /** Widening a well-bounded range with itself changes nothing. */
  lemma InterWidenSelf(a: Interval)
    requires WellBounded(a)
    ensures InterWiden(a, a) == a
  {
  }

  /**
   * The EPSLT quirk shows on an ill-bounded range only: [+inf, +inf] widened
   * with itself loses its low bound.
   */
  lemma InterWidenQuirk()
    ensures InterWiden(Range(Inf, Inf), Range(Inf, Inf)) == Range(MInf, Inf)
  {
  }

  /**
   * Narrowing: Bot if either side is Bot; otherwise the infinite bounds of the
   * first operand are replaced by those of the second and its other bounds are kept.
   * The result never exceeds the first operand, and it still covers the second
   * operand when that one is subsumed by the first.
   */
  function InterNarrow(i1: Interval, i2: Interval): (r: Interval)
    ensures i1.Bot? || i2.Bot? ==> r == Bot
    ensures i1.Range? && i2.Range? ==>
      r.Range? &&
      r.lbound == (if i1.lbound.MInf? then i2.lbound else i1.lbound) &&
      r.ubound == (if i1.ubound.Inf? then i2.ubound else i1.ubound)
    ensures InterOrder(r, i1)
    ensures InterOrder(i2, i1) ==> InterOrder(i2, r)
    ensures WellBounded(i1) && WellBounded(i2) ==> WellBounded(r)
  {
    match i1
    case Bot => InterBot()
    case Range(l1, u1) =>
      (match i2
       case Bot => InterBot()
       case Range(l2, u2) =>
         var newLbound := if l1 == MInf then l2 else l1;
         var newUbound := if u1 == Inf then u2 else u1;
         InterRange(newLbound, newUbound))
  }

  // ---------------------------------------------------------------------------
  // Abstract arithmetic
  // ---------------------------------------------------------------------------

  /** InterPlus reaches its integer additions only with finite bounds. */
  predicate PlusDefined(i1: Interval, i2: Interval)
  {
    i1.Bot? || i2.Bot? ||
    ((i1.lbound.MInf? || i2.lbound.MInf? || (i1.lbound.Endpoint? && i2.lbound.Endpoint?)) &&
     (i1.ubound.Inf? || i2.ubound.Inf? || (i1.ubound.Endpoint? && i2.ubound.Endpoint?)))
  }

  /** InterMinus reaches its integer subtractions only with finite bounds. */
  predicate MinusDefined(i1: Interval, i2: Interval)
  {
    i1.Bot? || i2.Bot? ||
    ((i1.lbound.MInf? || i2.ubound.Inf? || (i1.lbound.Endpoint? && i2.ubound.Endpoint?)) &&
     (i1.ubound.Inf? || i2.lbound.MInf? || (i1.ubound.Endpoint? && i2.lbound.Endpoint?)))
  }

  /** Well-bounded operands never make the arithmetic fail. */
  lemma WellBoundedDefined(i1: Interval, i2: Interval)
    requires WellBounded(i1) && WellBounded(i2)
    ensures PlusDefined(i1, i2) && MinusDefined(i1, i2)
  {
  }

  /** Abstract addition. */
  function InterPlus(i1: Interval, i2: Interval): (r: Interval)
    requires PlusDefined(i1, i2)
    ensures i1.Bot? || i2.Bot? <==> r.Bot?
    ensures WellBounded(i1) && WellBounded(i2) ==> WellBounded(r)
  {
    match i1
    case Bot => InterBot()
    case Range(l1, u1) =>
      (match i2
       case Bot => InterBot()
       case Range(l2, u2) =>
         var newLbound :=
           if l1 == MInf then l1
           else if l2 == MInf then l2
           else Endpoint(l1.epval + l2.epval);
         var newUbound :=
           if u1 == Inf then u1
           else if u2 == Inf then u2
           else Endpoint(u1.epval + u2.epval);
         InterRange(newLbound, newUbound))
  }

  /** Abstract subtraction. */
  function InterMinus(i1: Interval, i2: Interval): (r: Interval)
    requires MinusDefined(i1, i2)
    ensures i1.Bot? || i2.Bot? <==> r.Bot?
    ensures WellBounded(i1) && WellBounded(i2) ==> WellBounded(r)
  {
    match i1
    case Bot => InterBot()
    case Range(l1, u1) =>
      (match i2
       case Bot => InterBot()
       case Range(l2, u2) =>
         var newLbound :=
           if l1 == MInf then l1
           else if u2 == Inf then MInf
           else Endpoint(l1.epval - u2.epval);
         var newUbound :=
           if u1 == Inf then u1
           else if l2 == MInf then Inf
           else Endpoint(u1.epval - l2.epval);
         InterRange(newLbound, newUbound))
  }

  /**
   * The scan over the corner products in InterMult: starting from (lo, hi),
   * each bound that is at most lo becomes the new lo, each bound that is at
   * least hi becomes the new hi. The result is the least and greatest of them.
   */
  function MinMax(eps: seq<Bound>, lo: Bound, hi: Bound): (r: (Bound, Bound))
    ensures forall i :: 0 <= i < |eps| ==> EPSLE(r.0, eps[i]) && EPSLE(eps[i], r.1)
    ensures EPSLE(r.0, lo) && EPSLE(hi, r.1)
    ensures r.0 == lo || r.0 in eps
    ensures r.1 == hi || r.1 in eps
    decreases |eps|
  {
    if eps == [] then
      (lo, hi)
    else
      var lo' := if EPSLE(eps[0], lo) then eps[0] else lo;
      var hi' := if EPSLE(hi, eps[0]) then eps[0] else hi;
      MinMax(eps[1..], lo', hi')
  }

  /** The four products of a bound of i1 with a bound of i2. */
  function Corners(i1: Interval, i2: Interval): (r: seq<Bound>)
    requires i1.Range? && i2.Range?
    ensures |r| == 4
  {
    [EPMult(i1.lbound, i2.lbound), EPMult(i1.lbound, i2.ubound),
     EPMult(i1.ubound, i2.lbound), EPMult(i1.ubound, i2.ubound)]
  }

  /** Abstract multiplication: the least and greatest of the four corner products. */
  function InterMult(i1: Interval, i2: Interval): (r: Interval)
    ensures i1.Bot? || i2.Bot? <==> r.Bot?
    ensures r.Range? ==> forall c :: c in Corners(i1, i2) ==> EPSLE(r.lbound, c) && EPSLE(c, r.ubound)
    ensures r.Range? ==> r.lbound in Corners(i1, i2) && r.ubound in Corners(i1, i2)
    ensures WellBounded(i1) && WellBounded(i2) ==> WellBounded(r)
  {
    match i1
    case Bot => InterBot()
    case Range(l1, u1) =>
      (match i2
       case Bot => InterBot()
       case Range(l2, u2) =>
         var epList := Corners(i1, i2);
         var bounds := MinMax(epList, epList[0], epList[0]);
         CornersWellBounded(i1, i2);
         InterRange(bounds.0, bounds.1))
  }

  /** For well-bounded ranges some corner product is not +inf and some is not -inf. */
  lemma CornersWellBounded(i1: Interval, i2: Interval)
    requires i1.Range? && i2.Range?
    ensures WellBounded(i1) && WellBounded(i2) ==>
      (exists c :: c in Corners(i1, i2) && !c.Inf?) && (exists c :: c in Corners(i1, i2) && !c.MInf?)
  {
    if WellBounded(i1) && WellBounded(i2) {
      var cs := Corners(i1, i2);
      var c0, c1, c2, c3 := cs[0], cs[1], cs[2], cs[3];
      assert !c0.Inf? || !c1.Inf? || !c3.Inf?;
      assert !c0.MInf? || !c1.MInf? || !c2.MInf?;
    }
  }

  /**
   * Abstract signed less-than: [1, 1] when every value of i1 is below every
   * value of i2, [0, 0] when every value of i2 is below every value of i1,
   * and Top otherwise.
   */
  function InterSLT(i1: Interval, i2: Interval): (r: Interval)
    ensures i1.Bot? || i2.Bot? <==> r.Bot?
    ensures r.Range? ==> r == Range(Endpoint(1), Endpoint(1)) || r == Range(Endpoint(0), Endpoint(0)) || r == InterTop()
    ensures i1.Range? && i2.Range? ==>
      (r == Range(Endpoint(1), Endpoint(1)) <==> EPSLT(i1.ubound, i2.lbound)) &&
      (r == Range(Endpoint(0), Endpoint(0)) <==> !EPSLT(i1.ubound, i2.lbound) && EPSLT(i2.ubound, i1.lbound))
    ensures WellBounded(r)
  {
    match i1
    case Bot => InterBot()
    case Range(l1, u1) =>
      (match i2
       case Bot => InterBot()
       case Range(l2, u2) =>
         if EPSLT(u1, l2) then InterRange(Endpoint(1), Endpoint(1))
         else if EPSLT(u2, l1) then InterRange(Endpoint(0), Endpoint(0))
         else InterTop())
  }

  // ---------------------------------------------------------------------------
  // Soundness of the abstract arithmetic
  // ---------------------------------------------------------------------------

  lemma PlusSound(i1: Interval, i2: Interval, x: int, y: int)
    requires Contains(i1, x) && Contains(i2, y)
    ensures PlusDefined(i1, i2)
    ensures Contains(InterPlus(i1, i2), x + y)
  {
  }

  lemma MinusSound(i1: Interval, i2: Interval, x: int, y: int)
    requires Contains(i1, x) && Contains(i2, y)
    ensures MinusDefined(i1, i2)
    ensures Contains(InterMinus(i1, i2), x - y)
  {
  }

  /**
   * InterPlus is exact: on two non-empty operands it holds precisely the sums
   * of one member of each, so no sound result is smaller.
   */
  lemma {:induction false} PlusExact(i1: Interval, i2: Interval, x0: int, y0: int, z: int)
    requires Contains(i1, x0) && Contains(i2, y0)
    ensures PlusDefined(i1, i2)
    ensures Contains(InterPlus(i1, i2), z) <==>
            exists x, y :: Contains(i1, x) && Contains(i2, y) && z == x + y
  {
    PlusSound(i1, i2, x0, y0);
    if exists x, y :: Contains(i1, x) && Contains(i2, y) && z == x + y {
      var x, y :| Contains(i1, x) && Contains(i2, y) && z == x + y;
      PlusSound(i1, i2, x, y);
    }
    if Contains(InterPlus(i1, i2), z) {
      // Keep x0 and move the other summand into i2, clamping it at a bound.
      var y := z - x0;
      if !EPSLE(i2.lbound, Endpoint(y)) {
        y := i2.lbound.epval;
      } else if !EPSLE(Endpoint(y), i2.ubound) {
        y := i2.ubound.epval;
      }
      assert Contains(i1, z - y) && Contains(i2, y) && z == (z - y) + y;
    }
  }

  /**
   * InterMinus is exact: on two non-empty operands it holds precisely the
   * differences of one member of each.
   */
  lemma {:induction false} MinusExact(i1: Interval, i2: Interval, x0: int, y0: int, z: int)
    requires Contains(i1, x0) && Contains(i2, y0)
    ensures MinusDefined(i1, i2)
    ensures Contains(InterMinus(i1, i2), z) <==>
            exists x, y :: Contains(i1, x) && Contains(i2, y) && z == x - y
  {
    MinusSound(i1, i2, x0, y0);
    if exists x, y :: Contains(i1, x) && Contains(i2, y) && z == x - y {
      var x, y :| Contains(i1, x) && Contains(i2, y) && z == x - y;
      MinusSound(i1, i2, x, y);
    }
    if Contains(InterMinus(i1, i2), z) {
      // Keep x0 and move the subtrahend into i2, clamping it at a bound.
      var y := x0 - z;
      if !EPSLE(i2.lbound, Endpoint(y)) {
        y := i2.lbound.epval;
      } else if !EPSLE(Endpoint(y), i2.ubound) {
        y := i2.ubound.epval;
      }
      assert Contains(i1, z + y) && Contains(i2, y) && z == (z + y) - y;
    }
  }

  lemma SLTSound(i1: Interval, i2: Interval, x: int, y: int)
    requires Contains(i1, x) && Contains(i2, y)
    ensures Contains(InterSLT(i1, i2), if x < y then 1 else 0)
  {
  }

  /**
   * On ranges that hold values, InterSLT decides exactly: [1, 1] iff every
   * value of i1 is below every value of i2, [0, 0] iff every value of i2 is
   * below every value of i1, and Top when neither holds.
   */
  lemma SLTDecision(i1: Interval, i2: Interval, x0: int, y0: int)
    requires Contains(i1, x0) && Contains(i2, y0)
    ensures InterSLT(i1, i2) == Range(Endpoint(1), Endpoint(1)) <==>
      forall x, y :: Contains(i1, x) && Contains(i2, y) ==> x < y
    ensures InterSLT(i1, i2) == Range(Endpoint(0), Endpoint(0)) <==>
      forall x, y :: Contains(i1, x) && Contains(i2, y) ==> y < x
  {
    ContainsWellBounded(i1, x0);
    ContainsWellBounded(i2, y0);
    SomeBelowSome(i1, i2, x0, y0);
    SomeBelowSome(i2, i1, y0, x0);
  }

  /**
   * For ranges holding x0 and y0: EPSLT(i1.ubound, i2.lbound) holds exactly
   * when every value of i1 is below every value of i2.
   */
  lemma SomeBelowSome(i1: Interval, i2: Interval, x0: int, y0: int)
    requires Contains(i1, x0) && Contains(i2, y0)
    ensures EPSLT(i1.ubound, i2.lbound) <==> forall x, y :: Contains(i1, x) && Contains(i2, y) ==> x < y
  {
    var u1, l2 := i1.ubound, i2.lbound;
    if forall x, y :: Contains(i1, x) && Contains(i2, y) ==> x < y {
      var m := if x0 < y0 then y0 else x0;
      var n := if x0 < y0 then x0 else y0;
      if u1.Inf? {
        assert Contains(i1, m) && Contains(i2, y0);
      } else if l2.MInf? {
        assert Contains(i1, x0) && Contains(i2, n);
      } else {
        assert Contains(i1, u1.epval) && Contains(i2, l2.epval);
      }
    }
  }

  lemma MulMonotone(a: int, b: int, c: int)
    requires a <= b
    ensures c >= 0 ==> a * c <= b * c
    ensures c <= 0 ==> b * c <= a * c
  {
    var d := b - a;
    assert b * c == a * c + d * c;
    if c >= 0 {
      assert d * c >= 0;
    } else {
      assert d * c <= 0;
    }
  }

  /**
   * Scaling by a finite y maps the bounds p <= x <= q onto bounds of x * y
   * (in the same order for y >= 0, swapped for y < 0).
   */
  lemma ScaleBracket(p: Bound, q: Bound, x: int, y: int)
    requires EPSLE(p, Endpoint(x)) && EPSLE(Endpoint(x), q)
    ensures y >= 0 ==> EPSLE(EPMult(p, Endpoint(y)), Endpoint(x * y)) && EPSLE(Endpoint(x * y), EPMult(q, Endpoint(y)))
    ensures y < 0 ==> EPSLE(EPMult(q, Endpoint(y)), Endpoint(x * y)) && EPSLE(Endpoint(x * y), EPMult(p, Endpoint(y)))
  {
    if p.Endpoint? { MulMonotone(p.epval, x, y); }
    if q.Endpoint? { MulMonotone(x, q.epval, y); }
  }

  /** Multiplying a fixed bound e by p <= y keeps the order for e >= 0 and reverses it for e < 0. */
  lemma FactorBelow(e: Bound, p: Bound, y: int)
    requires EPSLE(p, Endpoint(y))
    ensures Sign(e) >= 0 ==> EPSLE(EPMult(e, p), EPMult(e, Endpoint(y)))
    ensures Sign(e) < 0 ==> EPSLE(EPMult(e, Endpoint(y)), EPMult(e, p))
  {
    match e
    case Endpoint(v) =>
      if p.Endpoint? { MulMonotone(p.epval, y, v); }
    case _ =>
  }

  /** Multiplying a fixed bound e by y <= q keeps the order for e >= 0 and reverses it for e < 0. */
  lemma FactorAbove(e: Bound, q: Bound, y: int)
    requires EPSLE(Endpoint(y), q)
    ensures Sign(e) >= 0 ==> EPSLE(EPMult(e, Endpoint(y)), EPMult(e, q))
    ensures Sign(e) < 0 ==> EPSLE(EPMult(e, q), EPMult(e, Endpoint(y)))
  {
    match e
    case Endpoint(v) =>
      if q.Endpoint? { MulMonotone(y, q.epval, v); }
    case _ =>
  }

  /**
   * Multiplying a fixed bound e by bounds p <= y <= q: the product with y lies
   * between the products with p and q (in that order for e >= 0, swapped for e < 0).
   */
  lemma FactorBracket(e: Bound, p: Bound, q: Bound, y: int)
    requires EPSLE(p, Endpoint(y)) && EPSLE(Endpoint(y), q)
    ensures Sign(e) >= 0 ==> EPSLE(EPMult(e, p), EPMult(e, Endpoint(y))) && EPSLE(EPMult(e, Endpoint(y)), EPMult(e, q))
    ensures Sign(e) < 0 ==> EPSLE(EPMult(e, q), EPMult(e, Endpoint(y))) && EPSLE(EPMult(e, Endpoint(y)), EPMult(e, p))
  {
    FactorBelow(e, p, y);
    FactorAbove(e, q, y);
  }

  /** Some corner product lies at or below x * y, and some at or above it. */
  lemma {:induction false} CornersBracket(i1: Interval, i2: Interval, x: int, y: int)
    requires Contains(i1, x) && Contains(i2, y)
    ensures exists c :: c in Corners(i1, i2) && EPSLE(c, Endpoint(x * y))
    ensures exists c :: c in Corners(i1, i2) && EPSLE(Endpoint(x * y), c)
  {
    var l1, u1, l2, u2 := i1.lbound, i1.ubound, i2.lbound, i2.ubound;
    var cs := Corners(i1, i2);
    var xy := Endpoint(x * y);
    var ly, uy := EPMult(l1, Endpoint(y)), EPMult(u1, Endpoint(y));
    ScaleBracket(l1, u1, x, y);
    FactorBracket(l1, l2, u2, y);
    FactorBracket(u1, l2, u2, y);
    // the factor whose product lies below x * y, and the one above it
    var below := if y >= 0 then l1 else u1;
    var above := if y >= 0 then u1 else l1;
    var cBelow := if Sign(below) >= 0 then EPMult(below, l2) else EPMult(below, u2);
    var cAbove := if Sign(above) >= 0 then EPMult(above, u2) else EPMult(above, l2);
    assert cBelow in cs && cAbove in cs;
    EPSLETrans(cBelow, EPMult(below, Endpoint(y)), xy);
    EPSLETrans(xy, EPMult(above, Endpoint(y)), cAbove);
  }

  /** x in i1 and y in i2 imply x * y in InterMult(i1, i2). */
  lemma {:induction false} MultSound(i1: Interval, i2: Interval, x: int, y: int)
    requires Contains(i1, x) && Contains(i2, y)
    ensures Contains(InterMult(i1, i2), x * y)
  {
    var r := InterMult(i1, i2);
    var xy := Endpoint(x * y);
    CornersBracket(i1, i2, x, y);
    var c1 :| c1 in Corners(i1, i2) && EPSLE(c1, xy);
    var c2 :| c2 in Corners(i1, i2) && EPSLE(xy, c2);
    EPSLETrans(r.lbound, c1, xy);
    EPSLETrans(xy, c2, r.ubound);
  }
}
