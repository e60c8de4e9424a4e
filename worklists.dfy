/**
 * The solver's worklist (internal/analyzer/worklist.go): a stack of pending
 * blocks over a growing slice, without de-duplication.
 */
module Worklists {
  import opened Tables

  class Worklist {
    var items: seq<Node>

    /** NewWorklist: an empty worklist. */
    constructor ()
      ensures items == []
    {
      items := [];
    }

    /** Holds iff there is no pending block. */
    function IsEmpty(): (r: bool)
      reads this
      ensures r <==> items == []
    {
      |items| == 0
    }

    /** Pushes n on top, even if it is already pending. */
    method Add(n: Node)
      modifies this
      ensures items == old(items) + [n]
    {
      items := items + [n];
    }

    /** Pushes every node of nodes in order, the last one ending on top. */
    method AddSet(nodes: seq<Node>)
      modifies this
      ensures items == old(items) + nodes
    {
      var i := 0;
      while i < |nodes|
        invariant 0 <= i <= |nodes|
        invariant items == old(items) + nodes[..i]
      {
        Add(nodes[i]);
        i := i + 1;
      }
    }

    /** Pops and returns the top (most recently added) node. */
    method Choose() returns (top: Node)
      requires items != []
      modifies this
      ensures top == old(items)[|old(items)| - 1]
      ensures items == old(items)[..|old(items)| - 1]
      ensures old(items) == items + [top]
    {
      top := items[|items| - 1];
      items := items[..|items| - 1];
    }
  }

  /** Adding n and then choosing gives back n and the worklist as it was. */
  method AddThenChoose(w: Worklist, n: Node) returns (m: Node)
    modifies w
    ensures m == n && w.items == old(w.items)
  {
    w.Add(n);
    m := w.Choose();
  }
}
