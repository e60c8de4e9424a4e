/**
 * The analysis table (domain/table.go): a map from CFG block to its abstract
 * output state, where a block without an entry reads as the empty state.
 * Blocks are identified by an index; the table is generic in the interval
 * type of the states it stores.
 */
module Tables {

  /** A CFG block, identified by its index. */
  type Node = nat

  /** The table's entry for n, or the empty state when n has none. */
  function FindIn<I>(entries: map<Node, map<string, I>>, n: Node): map<string, I>
  {
    if n in entries then entries[n] else map[]
  }

  /** After binding n to s, n reads s and every other block reads as before. */
  lemma FindInAfterBind<I>(entries: map<Node, map<string, I>>, n: Node, s: map<string, I>, m: Node)
    ensures FindIn(entries[n := s], m) == if m == n then s else FindIn(entries, m)
  {
  }

  class Table<I> {
    var entries: map<Node, map<string, I>>

    /** NewTable: a table with no entries. */
    constructor ()
      ensures entries == map[]
    {
      entries := map[];
    }

    /** Stores s as the state of n, keeping every other entry. */
    method Bind(n: Node, s: map<string, I>)
      modifies this
      ensures entries == old(entries)[n := s]
      ensures Find(n) == s
      ensures forall m :: m != n ==> Find(m) == old(Find(m))
    {
      entries := entries[n := s];
    }

    /** The state stored for n, the empty state when there is none. */
    function Find(n: Node): (s: map<string, I>)
      reads this
      ensures n in entries ==> s == entries[n]
      ensures n !in entries ==> s == map[]
    {
      FindIn(entries, n)
    }
  }
}
