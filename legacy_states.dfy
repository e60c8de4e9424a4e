/**
 * The older abstract memory state (domain/state.go): a map from variable name
 * to an interval of the older domain, where an unbound name reads as Bot.
 */
module LegacyStates {
  import opened LegacyIntervals

  class State {
    var bindings: map<string, Interval>

    /** EmptyState: a state with no bindings. */
    constructor ()
      ensures bindings == map[]
    {
      bindings := map[];
    }

    /** Binds x to v, overwriting an earlier binding of x and keeping every other one. */
    method Bind(x: string, v: Interval)
      modifies this
      ensures bindings == old(bindings)[x := v]
      ensures Find(x) == v
      ensures forall y :: y != x ==> Find(y) == old(Find(y))
    {
      bindings := bindings[x := v];
    }

    /** The interval bound to x, Bot when x is unbound. */
    function Find(x: string): (r: Interval)
      reads this
      ensures x in bindings ==> r == bindings[x]
      ensures x !in bindings ==> r == Bot
    {
      if x in bindings then bindings[x] else InterBot()
    }
  }
}
