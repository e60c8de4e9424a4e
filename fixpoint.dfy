/**
 * The worklist solver (internal/analyzer/fixpoint.go). A phase pops a block,
 * computes its input state, runs the transfer function over it, stores the
 * widened (first phase) or narrowed (second phase) state in the table and
 * pushes all successors of the block, whatever changed. The control-flow graph
 * is an input: its blocks, its entry, predecessors, successors, parameters and
 * the instructions of each block.
 *
 * Because successors are pushed unconditionally, a phase never ends on a
 * function with a loop among its blocks; each phase therefore runs for at
 * most `fuel` iterations, and what is proved is what every iteration does.
 */
module Fixpoint {
  import opened Intervals
  import opened States
  import opened Semantics
  import opened Tables
  import opened Worklists

  /** The control-flow graph of one function. */
  datatype Cfg = Cfg(
    blocks: seq<Node>,
    entry: Node,
    preds: map<Node, seq<Node>>,
    succs: map<Node, seq<Node>>,
    params: seq<string>,
    code: map<Node, seq<Inst>>)

  predicate IsEntry(cfg: Cfg, n: Node)
  {
    n == cfg.entry
  }

  function Pred(cfg: Cfg, n: Node): seq<Node>
  {
    if n in cfg.preds then cfg.preds[n] else []
  }

  function Succ(cfg: Cfg, n: Node): seq<Node>
  {
    if n in cfg.succs then cfg.succs[n] else []
  }

  function Insts(cfg: Cfg, n: Node): seq<Inst>
  {
    if n in cfg.code then cfg.code[n] else []
  }

  /** The contents of the analysis table. */
  type Entries = map<Node, StateMap>

  /** Every stored state is valid, so the transfer function never meets an ill-bounded interval. */
  predicate ValidTable(entries: Entries)
  {
    forall n :: n in entries ==> ValidState(entries[n])
  }

  lemma FindInValid(entries: Entries, n: Node)
    requires ValidTable(entries)
    ensures ValidState(FindIn(entries, n))
  {
  }

  // ---------------------------------------------------------------------------
  // Input state of a block
  // ---------------------------------------------------------------------------

  /** The empty state with each parameter bound to Top, in order. */
  function BindParams(params: seq<string>): (r: StateMap)
    ensures ValidState(r)
  {
    if params == [] then map[]
    else BindParams(params[..|params| - 1])[params[|params| - 1] := InterTop()]
  }

  /** Binding the parameters binds exactly the parameters, each to Top. */
  lemma {:induction false} BindParamsExact(params: seq<string>)
    ensures BindParams(params).Keys == set p | p in params
    ensures forall k :: k in BindParams(params) ==> BindParams(params)[k] == InterTop()
  {
    if params != [] {
      var front := params[..|params| - 1];
      BindParamsExact(front);
      assert params == front + [params[|params| - 1]];
      assert (set p | p in params) == (set p | p in front) + {params[|params| - 1]};
    }
  }

  /** StateJoin folded from the empty state over the table entries of ps, in order. */
  function JoinPreds(entries: Entries, ps: seq<Node>): (r: StateMap)
    ensures ValidTable(entries) ==> ValidState(r)
  {
    if ps == [] then map[]
    else StateJoin(JoinPreds(entries, ps[..|ps| - 1]), FindIn(entries, ps[|ps| - 1]))
  }

  /** The joined state is above the entry of every predecessor (a missing entry counts as the empty state). */
  lemma {:induction false} JoinPredsUpper(entries: Entries, ps: seq<Node>, j: nat)
    requires j < |ps|
    ensures StateOrder(FindIn(entries, ps[j]), JoinPreds(entries, ps))
  {
    var n := |ps| - 1;
    var front := ps[..n];
    if j < n {
      JoinPredsUpper(entries, front, j);
      assert front[j] == ps[j];
      StateOrderIntoJoin(FindIn(entries, ps[j]), JoinPreds(entries, front), FindIn(entries, ps[n]));
    } else {
      StateJoinIsLub(JoinPreds(entries, front), FindIn(entries, ps[n]), map[]);
    }
  }

  /** The joined state is below every state that is above the entry of every predecessor. */
  lemma {:induction false} JoinPredsLeast(entries: Entries, ps: seq<Node>, t: StateMap)
    requires forall j :: 0 <= j < |ps| ==> StateOrder(FindIn(entries, ps[j]), t)
    ensures StateOrder(JoinPreds(entries, ps), t)
  {
    if ps == [] {
      StateOrderIsPreorder(t, t, t);
    } else {
      var n := |ps| - 1;
      var front := ps[..n];
      assert forall j :: 0 <= j < |front| ==> StateOrder(FindIn(entries, front[j]), t) by {
        forall j | 0 <= j < |front| ensures StateOrder(FindIn(entries, front[j]), t) {
          assert front[j] == ps[j];
        }
      }
      JoinPredsLeast(entries, front, t);
      StateJoinIsLub(JoinPreds(entries, front), FindIn(entries, ps[n]), t);
    }
  }

  /** The input state of a block: the parameters bound to Top at the entry, else the join of the predecessors. */
  function Input(cfg: Cfg, entries: Entries, here: Node): (r: StateMap)
    ensures ValidTable(entries) ==> ValidState(r)
  {
    if IsEntry(cfg, here) then BindParams(cfg.params) else JoinPreds(entries, Pred(cfg, here))
  }

  /** Computes the input state of a block into a fresh State. */
  method InputOf(here: Node, cfg: Cfg, tbl: Table<Interval>) returns (res: State)
    ensures fresh(res)
    ensures res.bindings == Input(cfg, tbl.entries, here)
  {
    res := new State();
    if IsEntry(cfg, here) {
      for i := 0 to |cfg.params|
        invariant res.bindings == BindParams(cfg.params[..i])
      {
        assert cfg.params[..i + 1][..i] == cfg.params[..i];
        res.Bind(cfg.params[i], InterTop());
      }
      assert cfg.params[..|cfg.params|] == cfg.params;
    } else {
      var ps := Pred(cfg, here);
      for i := 0 to |ps|
        invariant res.bindings == JoinPreds(tbl.entries, ps[..i])
      {
        assert ps[..i + 1][..i] == ps[..i];
        res.bindings := StateJoin(res.bindings, tbl.Find(ps[i]));
      }
      assert ps[..|ps|] == ps;
    }
  }

  // ---------------------------------------------------------------------------
  // One iteration of the worklist loop, and a run of them
  // ---------------------------------------------------------------------------

  /** The output state the transfer function computes for a block from the current table. */
  function Candidate(cfg: Cfg, entries: Entries, here: Node): (r: StateMap)
    requires ValidTable(entries)
    ensures ValidState(r)
  {
    BlockEffect(Input(cfg, entries, here), Insts(cfg, here))
  }

  /** One iteration: pop the top block, store the widened or narrowed state, push its successors. */
  function Step(cfg: Cfg, entries: Entries, wl: seq<Node>, widen: bool): (r: (Entries, seq<Node>))
    requires ValidTable(entries) && wl != []
    ensures ValidTable(r.0)
  {
    var here := wl[|wl| - 1];
    var oldState := FindIn(entries, here);
    var state := Candidate(cfg, entries, here);
    FindInValid(entries, here);
    var newState := if widen then StateWiden(oldState, state) else StateNarrow(oldState, state);
    (entries[here := newState], wl[..|wl| - 1] + Succ(cfg, here))
  }

  /** At most fuel iterations, stopping early when the worklist is empty. */
  function Iterate(cfg: Cfg, entries: Entries, wl: seq<Node>, widen: bool, fuel: nat): (r: (Entries, seq<Node>))
    requires ValidTable(entries)
    ensures ValidTable(r.0)
    decreases fuel
  {
    if wl == [] || fuel == 0 then (entries, wl)
    else
      var next := Step(cfg, entries, wl, widen);
      Iterate(cfg, next.0, next.1, widen, fuel - 1)
  }

  /**
   * An iteration changes only the entry of the popped block, stores there the
   * old entry widened (or narrowed) with the candidate, and replaces the popped
   * block by all of its successors.
   */
  lemma StepChangesOnlyHere(cfg: Cfg, entries: Entries, wl: seq<Node>, widen: bool, n: Node)
    requires ValidTable(entries) && wl != []
    ensures var here := wl[|wl| - 1];
      var r := Step(cfg, entries, wl, widen);
      var cand := Candidate(cfg, entries, here);
      (n != here ==> FindIn(r.0, n) == FindIn(entries, n)) &&
      FindIn(r.0, here) ==
        (if widen then StateWiden(FindIn(entries, here), cand) else StateNarrow(FindIn(entries, here), cand)) &&
      r.1 == wl[..|wl| - 1] + Succ(cfg, here)
  {
  }

  /**
   * In the widening phase an iteration only lets entries grow, and the popped
   * block's new entry subsumes the state the transfer function computed.
   */
  lemma WidenStepAscends(cfg: Cfg, entries: Entries, wl: seq<Node>, n: Node)
    requires ValidTable(entries) && wl != []
    ensures StateOrder(FindIn(entries, n), FindIn(Step(cfg, entries, wl, true).0, n))
    ensures StateOrder(Candidate(cfg, entries, wl[|wl| - 1]), FindIn(Step(cfg, entries, wl, true).0, wl[|wl| - 1]))
  {
    var here := wl[|wl| - 1];
    StateWidenUpper(FindIn(entries, here), Candidate(cfg, entries, here));
    StateOrderIsPreorder(FindIn(entries, n), FindIn(entries, n), FindIn(entries, n));
  }

  /** Over a whole widening run, every table entry only grows. */
  lemma {:induction false} WidenRunAscends(cfg: Cfg, entries: Entries, wl: seq<Node>, fuel: nat, n: Node)
    requires ValidTable(entries)
    ensures StateOrder(FindIn(entries, n), FindIn(Iterate(cfg, entries, wl, true, fuel).0, n))
    decreases fuel
  {
    if wl == [] || fuel == 0 {
      StateOrderIsPreorder(FindIn(entries, n), FindIn(entries, n), FindIn(entries, n));
    } else {
      var next := Step(cfg, entries, wl, true);
      WidenStepAscends(cfg, entries, wl, n);
      WidenRunAscends(cfg, next.0, next.1, fuel - 1, n);
      StateOrderIsPreorder(FindIn(entries, n), FindIn(next.0, n), FindIn(Iterate(cfg, entries, wl, true, fuel).0, n));
    }
  }

  /**
   * In the narrowing phase, when the candidate is below the old entry, the new
   * entry lies between the candidate and the old entry.
   */
  lemma NarrowStepBetween(cfg: Cfg, entries: Entries, wl: seq<Node>)
    requires ValidTable(entries) && wl != []
    requires StateOrder(Candidate(cfg, entries, wl[|wl| - 1]), FindIn(entries, wl[|wl| - 1]))
    ensures var here := wl[|wl| - 1];
      var e := Step(cfg, entries, wl, false).0;
      StateOrder(Candidate(cfg, entries, here), FindIn(e, here)) && StateOrder(FindIn(e, here), FindIn(entries, here))
  {
    var here := wl[|wl| - 1];
    StateNarrowBetween(FindIn(entries, here), Candidate(cfg, entries, here));
  }

  /**
   * Every block of c has a successor in c: the blocks of any loop of the
   * function form such a set, whatever exit edges the loop also has.
   */
  predicate OnCycle(cfg: Cfg, c: set<Node>)
  {
    forall n :: n in c ==> exists k :: 0 <= k < |Succ(cfg, n)| && Succ(cfg, n)[k] in c
  }

  /**
   * Once some pending block lies on a cycle, the worklist never empties,
   * whatever the fuel: the popped block is either above it, or it is the
   * block itself and pushes a successor that is on the cycle too.
   */
  lemma {:induction false} CycleNeverFinishes(cfg: Cfg, c: set<Node>, entries: Entries, wl: seq<Node>, widen: bool, fuel: nat, i: nat)
    requires ValidTable(entries) && OnCycle(cfg, c)
    requires i < |wl| && wl[i] in c
    ensures Iterate(cfg, entries, wl, widen, fuel).1 != []
    decreases fuel
  {
    if fuel > 0 {
      var top := |wl| - 1;
      var next := Step(cfg, entries, wl, widen);
      var succ := Succ(cfg, wl[top]);
      assert next.1 == wl[..top] + succ;
      if i < top {
        assert next.1[i] == wl[i];
        CycleNeverFinishes(cfg, c, next.0, next.1, widen, fuel - 1, i);
      } else {
        var k :| 0 <= k < |succ| && succ[k] in c;
        assert next.1[top + k] == succ[k];
        CycleNeverFinishes(cfg, c, next.0, next.1, widen, fuel - 1, top + k);
      }
    }
  }

  // ---------------------------------------------------------------------------
  // The phases and the whole analysis
  // ---------------------------------------------------------------------------

  /**
   * One phase: every block starts pending; each iteration pops a block and
   * updates its table entry. Returns whether the worklist emptied within fuel iterations.
   */
  method AnalyzeStep(cfg: Cfg, tbl: Table<Interval>, widen: bool, fuel: nat) returns (finished: bool)
    requires ValidTable(tbl.entries)
    modifies tbl
    ensures tbl.entries == Iterate(cfg, old(tbl.entries), cfg.blocks, widen, fuel).0
    ensures finished <==> Iterate(cfg, old(tbl.entries), cfg.blocks, widen, fuel).1 == []
  {
    var worklist := new Worklist();
    worklist.AddSet(cfg.blocks);
    assert worklist.items == cfg.blocks;
    var steps := 0;
    while !worklist.IsEmpty() && steps < fuel
      invariant 0 <= steps <= fuel
      invariant ValidTable(tbl.entries)
      invariant Iterate(cfg, tbl.entries, worklist.items, widen, fuel - steps)
             == Iterate(cfg, old(tbl.entries), cfg.blocks, widen, fuel)
      decreases fuel - steps
    {
      ghost var before := (tbl.entries, worklist.items);
      var here := worklist.Choose();
      var state := InputOf(here, cfg, tbl);
      TransferBlock(state, Insts(cfg, here));
      var oldState := tbl.Find(here);
      FindInValid(tbl.entries, here);
      if widen {
        tbl.Bind(here, StateWiden(oldState, state.bindings));
        worklist.AddSet(Succ(cfg, here));
      } else {
        tbl.Bind(here, StateNarrow(oldState, state.bindings));
        worklist.AddSet(Succ(cfg, here));
      }
      assert (tbl.entries, worklist.items) == Step(cfg, before.0, before.1, widen);
      steps := steps + 1;
    }
    finished := worklist.IsEmpty();
  }

  /** The widening phase from the empty table, then, if it ended, the narrowing phase on its result. */
  function Analysis(cfg: Cfg, fuel: nat): (r: (Entries, bool))
    ensures ValidTable(r.0)
  {
    var widened := Iterate(cfg, map[], cfg.blocks, true, fuel);
    if widened.1 != [] then (widened.0, false)
    else
      var narrowed := Iterate(cfg, widened.0, cfg.blocks, false, fuel);
      (narrowed.0, narrowed.1 == [])
  }

  /** Runs the analysis with at most fuel iterations per phase; finished says both phases ended. */
  method Analyze(cfg: Cfg, fuel: nat) returns (tbl: Table<Interval>, finished: bool)
    ensures fresh(tbl)
    ensures (tbl.entries, finished) == Analysis(cfg, fuel)
  {
    tbl := new Table();
    var widened := AnalyzeStep(cfg, tbl, true, fuel);
    if widened {
      finished := AnalyzeStep(cfg, tbl, false, fuel);
    } else {
      finished := false;
    }
  }

  /** The entry block starts from exactly its parameters, each unconstrained. */
  lemma {:induction false} InputAtEntry(cfg: Cfg, entries: Entries, here: Node)
    requires IsEntry(cfg, here)
    ensures Input(cfg, entries, here).Keys == set p | p in cfg.params
    ensures forall k :: k in Input(cfg, entries, here) ==> Lookup(Input(cfg, entries, here), k) == InterTop()
  {
    BindParamsExact(cfg.params);
  }

  /**
   * A function with parameter x and the single block y = x + 5 ends, after both
   * phases, with x and y both unconstrained.
   */
  lemma StraightLineAnalysis()
    ensures var cfg := Cfg([0], 0, map[], map[], ["x"], map[0 := [Add("y", Local("x"), Const(5))]]);
      Analysis(cfg, 1) == (map[0 := map["x" := InterTop(), "y" := InterTop()]], true)
  {
    var cfg := Cfg([0], 0, map[], map[], ["x"], map[0 := [Add("y", Local("x"), Const(5))]]);
    var params := ["x"];
    assert params[..0] == [];
    var insts := [Add("y", Local("x"), Const(5))];
    assert insts[..0] == [];
    var s := map["x" := InterTop(), "y" := InterTop()];
    var wl: seq<Node> := [0];
    assert wl[..0] == [] && wl[|wl| - 1] == 0;
    assert Succ(cfg, 0) == [];
    var e0: Entries := map[];
    var e1: Entries := map[0 := s];
    assert Input(cfg, e0, 0) == map["x" := InterTop()];
    assert Candidate(cfg, e0, 0) == s;
    assert FindIn(e0, 0) == map[];
    assert StateWiden(map[], s) == s;
    var w := Step(cfg, e0, wl, true);
    assert w.0 == e0[0 := StateWiden(FindIn(e0, 0), Candidate(cfg, e0, 0))];
    assert w.1 == wl[..0] + Succ(cfg, 0);
    assert w.0 == e1 && w.1 == [];
    assert Iterate(cfg, e0, wl, true, 1) == (e1, []);
    assert Candidate(cfg, e1, 0) == s;
    assert FindIn(e1, 0) == s;
    assert StateNarrow(s, s) == s;
    var n := Step(cfg, e1, wl, false);
    assert n.0 == e1[0 := StateNarrow(FindIn(e1, 0), Candidate(cfg, e1, 0))];
    assert n.1 == wl[..0] + Succ(cfg, 0);
    assert n.0 == e1 && n.1 == [];
    assert Iterate(cfg, e1, wl, false, 1) == (e1, []);
  }

  /** If some block of the function lies on a cycle, the widening phase never ends, so neither does the analysis. */
  lemma LoopNeverFinishes(cfg: Cfg, c: set<Node>, fuel: nat, i: nat)
    requires OnCycle(cfg, c) && i < |cfg.blocks| && cfg.blocks[i] in c
    ensures !Analysis(cfg, fuel).1
  {
    CycleNeverFinishes(cfg, c, map[], cfg.blocks, true, fuel, i);
  }

  /**
   * A counting loop: block 0 enters the loop block 1, which branches back to
   * itself or exits to block 2. The analysis does not finish for any fuel.
   */
  lemma CountingLoopNeverFinishes(fuel: nat)
    ensures !Analysis(Cfg([0, 1, 2], 0, map[1 := [0, 1], 2 := [1]], map[0 := [1], 1 := [1, 2]], [], map[]), fuel).1
  {
    var cfg := Cfg([0, 1, 2], 0, map[1 := [0, 1], 2 := [1]], map[0 := [1], 1 := [1, 2]], [], map[]);
    assert Succ(cfg, 1)[0] == 1;
    LoopNeverFinishes(cfg, {1}, fuel, 1);
  }
}
