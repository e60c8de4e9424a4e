/**
 * The abstract memory state of the analyzer (pkg/domain/state.go): a map from
 * variable name to interval, where an unbound name reads as Bot. `State` is the
 * mutable object the transfer function updates in place; the point-wise lattice
 * operations build fresh maps from the bindings of two states.
 */
module States {
  import opened Intervals

  /** The bindings of a state. */
  type StateMap = map<string, Interval>

  /** The value of x in s: its binding, or Bot when x is unbound. */
  function Lookup(s: StateMap, x: string): Interval
  {
    if x in s then s[x] else InterBot()
  }

  /** After binding x to v, x reads v and every other name reads as before. */
  lemma LookupAfterBind(s: StateMap, x: string, v: Interval, y: string)
    ensures Lookup(s[x := v], y) == if y == x then v else Lookup(s, y)
  {
  }

  class State {
    var bindings: StateMap

    /** EmptyState: a state with no bindings. */
    constructor ()
      ensures bindings == map[]
    {
      bindings := map[];
    }

    /** Binds (or rebinds) x to v. */
    method Bind(x: string, v: Interval)
      modifies this
      ensures bindings == old(bindings)[x := v]
      ensures Find(x) == v
      ensures forall y :: y != x ==> Find(y) == old(Find(y))
    {
      bindings := bindings[x := v];
    }

    /** The interval bound to x, Bot when x is unbound. */
    function Find(x: string): (r: Interval)
      reads this
      ensures x in bindings ==> r == bindings[x]
      ensures x !in bindings ==> r == Bot
    {
      Lookup(bindings, x)
    }
  }

  /** Every binding of s is well bounded. */
  predicate ValidState(s: StateMap)
  {
    forall k :: k in s ==> WellBounded(s[k])
  }

  // ---------------------------------------------------------------------------
  // Point-wise order and operations
  // ---------------------------------------------------------------------------

  /** Every name bound in s1 is bound in s2 to an interval that subsumes its value in s1. */
  predicate StateOrder(s1: StateMap, s2: StateMap)
  {
    forall k :: k in s1 ==> InterOrder(s1[k], Lookup(s2, k))
  }

  /** StateOrder is the point-wise lifting of InterOrder to all names. */
  lemma StateOrderPointwise(s1: StateMap, s2: StateMap)
    ensures StateOrder(s1, s2) <==> forall k :: InterOrder(Lookup(s1, k), Lookup(s2, k))
  {
    if StateOrder(s1, s2) {
      forall k ensures InterOrder(Lookup(s1, k), Lookup(s2, k)) {
        if k !in s1 {
          InterOrderIsPartialOrder(Bot, Lookup(s2, k), Bot);
        }
      }
    }
  }

  /** StateOrder is reflexive and transitive, and the empty state is below every state. */
  lemma StateOrderIsPreorder(s1: StateMap, s2: StateMap, s3: StateMap)
    ensures StateOrder(s1, s1)
    ensures StateOrder(map[], s1)
    ensures StateOrder(s1, s2) && StateOrder(s2, s3) ==> StateOrder(s1, s3)
  {
    forall k | k in s1 {
      InterOrderIsPartialOrder(s1[k], Lookup(s2, k), Lookup(s3, k));
    }
    if StateOrder(s1, s2) && StateOrder(s2, s3) {
      StateOrderPointwise(s2, s3);
      forall k | k in s1 ensures InterOrder(s1[k], Lookup(s3, k)) {
        InterOrderTrans(s1[k], Lookup(s2, k), Lookup(s3, k));
      }
    }
  }

  /** StateOrder is transitive. */
  lemma StateOrderTrans(s1: StateMap, s2: StateMap, s3: StateMap)
    requires StateOrder(s1, s2) && StateOrder(s2, s3)
    ensures StateOrder(s1, s3)
  {
    StateOrderIsPreorder(s1, s2, s3);
  }

  /** A state below the first operand of a join is below the join. */
  lemma StateOrderIntoJoin(x: StateMap, s1: StateMap, s2: StateMap)
    requires StateOrder(x, s1)
    ensures StateOrder(x, StateJoin(s1, s2))
  {
    StateJoinIsLub(s1, s2, s1);
    StateOrderTrans(x, s1, StateJoin(s1, s2));
  }

  /** States that are ordered stand for ordered sets of values, name by name. */
  lemma StateOrderSound(s1: StateMap, s2: StateMap, k: string, x: int)
    requires StateOrder(s1, s2) && Contains(Lookup(s1, k), x)
    ensures Contains(Lookup(s2, k), x)
  {
    InterOrderSound(s1[k], Lookup(s2, k), x);
  }

  /** Point-wise join: names of both states, each joined with its value in the other. */
  function StateJoin(s1: StateMap, s2: StateMap): (r: StateMap)
    ensures r.Keys == s1.Keys + s2.Keys
    ensures forall k :: Lookup(r, k) == InterJoin(Lookup(s1, k), Lookup(s2, k))
    ensures ValidState(s1) && ValidState(s2) ==> ValidState(r)
  {
    map k | k in s1.Keys + s2.Keys ::
      if k in s1 then InterJoin(s1[k], Lookup(s2, k)) else s2[k]
  }

  /** StateJoin is the least upper bound of its operands. */
  lemma StateJoinIsLub(s1: StateMap, s2: StateMap, t: StateMap)
    ensures StateOrder(s1, StateJoin(s1, s2)) && StateOrder(s2, StateJoin(s1, s2))
    ensures StateOrder(s1, t) && StateOrder(s2, t) ==> StateOrder(StateJoin(s1, s2), t)
  {
    var j := StateJoin(s1, s2);
    StateOrderPointwise(s1, j);
    StateOrderPointwise(s2, j);
    if StateOrder(s1, t) && StateOrder(s2, t) {
      StateOrderPointwise(s1, t);
      StateOrderPointwise(s2, t);
      StateOrderPointwise(j, t);
      forall k ensures InterOrder(Lookup(j, k), Lookup(t, k)) {
        InterJoinLeast(Lookup(s1, k), Lookup(s2, k), Lookup(t, k));
      }
    }
  }

  /** Point-wise widening: names of both states, each widened with its value in the other. */
  function StateWiden(s1: StateMap, s2: StateMap): (r: StateMap)
    ensures r.Keys == s1.Keys + s2.Keys
    ensures forall k :: Lookup(r, k) == InterWiden(Lookup(s1, k), Lookup(s2, k))
    ensures ValidState(s1) && ValidState(s2) ==> ValidState(r)
  {
    map k | k in s1.Keys + s2.Keys ::
      if k in s1 then InterWiden(s1[k], Lookup(s2, k)) else s2[k]
  }

  /** The widened state subsumes both operands. */
  lemma StateWidenUpper(s1: StateMap, s2: StateMap)
    ensures StateOrder(s1, StateWiden(s1, s2)) && StateOrder(s2, StateWiden(s1, s2))
  {
    var w := StateWiden(s1, s2);
    StateOrderPointwise(s1, w);
    StateOrderPointwise(s2, w);
  }

  /**
   * Point-wise narrowing of the names bound in s1; a name bound only in s2 is
   * copied from s2 as it is (not narrowed against Bot).
   */
  function StateNarrow(s1: StateMap, s2: StateMap): (r: StateMap)
    ensures r.Keys == s1.Keys + s2.Keys
    ensures forall k :: k in s1 ==> r[k] == InterNarrow(s1[k], Lookup(s2, k))
    ensures forall k :: k !in s1 && k in s2 ==> r[k] == s2[k]
    ensures ValidState(s1) && ValidState(s2) ==> ValidState(r)
  {
    map k | k in s1.Keys + s2.Keys ::
      if k in s1 then InterNarrow(s1[k], Lookup(s2, k)) else s2[k]
  }

  /**
   * When s2 is below s1, the narrowed state lies between them; in particular
   * narrowing then never adds information that s1 did not allow.
   */
  lemma StateNarrowBetween(s1: StateMap, s2: StateMap)
    requires StateOrder(s2, s1)
    ensures StateOrder(s2, StateNarrow(s1, s2)) && StateOrder(StateNarrow(s1, s2), s1)
  {
    var n := StateNarrow(s1, s2);
    StateOrderPointwise(s2, s1);
    forall k | k in s2 ensures InterOrder(s2[k], Lookup(n, k)) {
      if k !in s1 {
        assert InterOrder(s2[k], Bot);
        InterOrderIsPartialOrder(s2[k], s2[k], s2[k]);
      }
    }
    forall k | k in n ensures InterOrder(n[k], Lookup(s1, k)) {
      if k !in s1 {
        assert InterOrder(s2[k], Bot);
      }
    }
  }

  /**
   * The copying of names bound only in s2 makes StateNarrow differ from the
   * point-wise narrowing, under which such a name would read as Bot.
   */
  lemma StateNarrowCopies()
    ensures var s2 := map["x" := Range(Endpoint(0), Endpoint(0))];
      Lookup(StateNarrow(map[], s2), "x") == Range(Endpoint(0), Endpoint(0)) &&
      InterNarrow(Bot, Lookup(s2, "x")) == Bot
  {
  }
}
