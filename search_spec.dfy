/**
 * search's loop, stated on values: the order OPEN is sorted in, the bound
 * on how many cells can be claimed, the invariant of the whole search
 * state, and what the loop has done so far.
 */
module SearchSpec {
  import opened Wrappers
  import opened Nodes
  import opened Moves
  import opened Expansion
  import opened Sorting

  /** The order nodes compare in: `__lt__` compares `f`. */
  function FKey(nodes: seq<Node>): (key: nat -> int)
    ensures forall k | 0 <= k < |nodes| :: key(k) == nodes[k].f
  {
    (k: nat) => if k < |nodes| then nodes[k].f else 0
  }

  /** The cells of an m x n grid. */
  function Cells(m: nat, n: nat): set<Cell> {
    set x, y | 0 <= x < m && 0 <= y < n :: (x, y)
  }

  /** Row x of a grid with n columns has n cells. */
  lemma {:induction false} RowCount(x: int, n: nat)
    ensures |set y | 0 <= y < n :: (x, y)| == n
  {
    if n > 0 {
      RowCount(x, n - 1);
      var row := set y | 0 <= y < n :: (x, y);
      var shorter := set y | 0 <= y < n - 1 :: (x, y);
      assert row == shorter + {(x, n - 1)};
      assert (x, n - 1) !in shorter;
    } else {
      var row := set y | 0 <= y < n :: (x, y);
      assert row == {};
    }
  }

  /** An m x n grid has m * n cells. */
  lemma {:induction false} CellCount(m: nat, n: nat)
    ensures |Cells(m, n)| == m * n
  {
    if m > 0 {
      var x := m - 1;
      var last := set y | 0 <= y < n :: (x, y);
      CellCount(x, n);
      RowCount(x, n);
      forall c | c in Cells(m, n)
        ensures c in Cells(x, n) || c in last
      {
        if c.0 < x {
          assert c in Cells(x, n);
        } else {
          assert c in last;
        }
      }
      assert Cells(m, n) == Cells(x, n) + last;
      assert Cells(x, n) * last == {};
      assert |Cells(m, n)| == x * n + n;
      assert (x + 1) * n == x * n + n;
    } else {
      assert Cells(m, n) == {};
    }
  }

  /** At most size * size cells can be claimed: claimed cells are cells of the grid. */
  lemma ClaimedBound(grid: array2<char>, goalRow: int, goalCol: int, s: Store)
    requires StoreOk(grid, goalRow, goalCol, s)
    ensures |s.owner| <= grid.Length0 * grid.Length0
  {
    forall c | c in s.owner
      ensures c in Cells(grid.Length0, grid.Length0)
    {
      OwnedInGrid(grid, goalRow, goalCol, s, c);
    }
    var all := Cells(grid.Length0, grid.Length0);
    assert |s.owner| == |s.owner.Keys|;
    CellCount(grid.Length0, grid.Length0);
    assert all == s.owner.Keys + (all - s.owner.Keys);
  }

  /** Every node with a parent was built by expanding that parent, which is in `closed`. */
  ghost predicate ParentsIn(nodes: seq<Node>, closed: seq<nat>) {
    forall m | 0 <= m < |nodes| :: nodes[m].parent.Some? ==> nodes[m].parent.value in closed
  }

  /** Expanding a closed node keeps every parent closed: the new nodes are its children. */
  lemma ExpandParents(closed: seq<nat>, k: nat, s: Store, r: Store)
    requires ParentsIn(s.nodes, closed) && k in closed && ArenaGrows(k, s, r)
    ensures ParentsIn(r.nodes, closed)
  {
    forall m | 0 <= m < |r.nodes| && r.nodes[m].parent.Some?
      ensures r.nodes[m].parent.value in closed
    {
      if m < |s.nodes| {
        assert r.nodes[m] == s.nodes[m];
      }
    }
  }

  /**
   * What search has done since it started from arena `nodes0` and CLOSED
   * `closed0`: both only grew, CLOSED holds arena nodes, none of those it
   * added is a goal, and in depth-limited mode none is deeper than `bound`.
   */
  ghost predicate Progress(nodes0: seq<Node>, closed0: seq<nat>, nodes: seq<Node>, closed: seq<nat>, limited: bool, bound: int) {
    |nodes0| <= |nodes| && nodes[..|nodes0|] == nodes0 &&
    |closed0| <= |closed| && closed[..|closed0|] == closed0 &&
    Acyclic(nodes) && (forall t | 0 <= t < |closed| :: closed[t] < |nodes|) &&
    (forall t | |closed0| <= t < |closed| :: !nodes[closed[t]].isGoal) &&
    (limited ==> forall t | |closed0| <= t < |closed| :: Depth(nodes, closed[t]) <= bound)
  }

  /**
   * Search ended at goal `g`: `g` is the last entry of CLOSED, it is within
   * the depth bound in 'D' mode, `solution` is its operator string, and the
   * nodes closed before it make progress from (`nodes0`, `closed0`).
   */
  ghost predicate Solved(nodes0: seq<Node>, closed0: seq<nat>, nodes: seq<Node>, closed: seq<nat>, limited: bool, bound: int,
                         g: nat, solution: string) {
    |closed0| < |closed| && closed[|closed| - 1] == g && g < |nodes| && Acyclic(nodes) &&
    nodes[g].isGoal && solution == OperatorsString(nodes, g) &&
    (limited ==> Depth(nodes, g) <= bound) &&
    Progress(nodes0, closed0, nodes, closed[..|closed| - 1], limited, bound)
  }

  /**
   * One pass of search's loop that closes and expands `current`: the arena
   * grows to `more`, which changes nothing about the nodes already there, so
   * the progress so far carries over, and it extends to `current` unless
   * `current` is a goal.
   */
  lemma ProgressStep(nodes0: seq<Node>, closed0: seq<nat>, nodes: seq<Node>, closed: seq<nat>, limited: bool, bound: int,
                     more: seq<Node>, current: nat)
    requires Progress(nodes0, closed0, nodes, closed, limited, bound)
    requires Acyclic(more) && |nodes| <= |more| && more[..|nodes|] == nodes && current < |nodes|
    requires limited ==> Depth(nodes, current) <= bound
    ensures Progress(nodes0, closed0, more, closed, limited, bound)
    ensures more[current] == nodes[current] && Depth(more, current) == Depth(nodes, current)
    ensures OperatorsString(more, current) == OperatorsString(nodes, current)
    ensures !nodes[current].isGoal ==> Progress(nodes0, closed0, more, closed + [current], limited, bound)
    ensures nodes[current].isGoal ==>
      Solved(nodes0, closed0, more, closed + [current], limited, bound, current, OperatorsString(nodes, current))
  {
    assert more[..|nodes0|] == nodes0 by {
      assert more[..|nodes0|] == more[..|nodes|][..|nodes0|];
    }
    forall t | 0 <= t < |closed|
      ensures more[closed[t]] == nodes[closed[t]] && Depth(more, closed[t]) == Depth(nodes, closed[t])
    {
      ArenaGrowth(nodes, more, closed[t]);
    }
    ArenaGrowth(nodes, more, current);
    var after := closed + [current];
    assert after[..|closed0|] == closed0 by {
      assert after[..|closed0|] == after[..|closed|][..|closed0|];
    }
    assert forall t | 0 <= t < |closed| :: after[t] == closed[t];
    assert after[..|after| - 1] == closed;
  }

  /**
   * A pass of search's loop that closes node `k`, `closed` already ending
   * with it: expand(k), followed in best-first mode by the sort of OPEN.
   */
  function VisitSpec(grid: array2<char>, goalRow: int, goalCol: int, closed: seq<nat>, s: Store, k: nat,
                     bestFirst: bool): Store
    reads grid
    requires IsSquare(grid) && Shaped(s, k)
  {
    Reordered(ExpandSpec(grid, goalRow, goalCol, closed, s, k), bestFirst)
  }

  /** The store after order() in best-first mode: OPEN sorted by f; otherwise unchanged. */
  function Reordered(s: Store, bestFirst: bool): Store {
    if bestFirst then s.(open := SortDesc(s.open, FKey(s.nodes))) else s
  }

  /** What a pass of search's loop reads and writes: the store, CLOSED and expansion_count. */
  datatype Phase = Phase(store: Store, closed: seq<nat>, expansions: int)

  /** A pass can start from `p`: OPEN is non-empty and its last entry is an arena node. */
  predicate Poppable(grid: array2<char>, p: Phase) {
    IsSquare(grid) && p.store.open != [] && Acyclic(p.store.nodes) &&
    Shaped(p.store, p.store.open[|p.store.open| - 1])
  }

  /**
   * One pass of search's loop from `p`: the last entry `k` of OPEN is
   * popped; in 'D' mode a node deeper than the bound is skipped; any other
   * is appended to CLOSED, expanded, OPEN is sorted in 'A' mode, and
   * expansion_count goes up.  The outcome is `k`'s operator string when it
   * is a goal that was not skipped, and None otherwise.
   */
  function Pass(grid: array2<char>, goalRow: int, goalCol: int, limited: bool, bound: int, bestFirst: bool, p: Phase)
    : (Phase, Option<string>)
    reads grid
    requires Poppable(grid, p)
  {
    var s := p.store;
    var k := s.open[|s.open| - 1];
    var popped := s.(open := s.open[..|s.open| - 1]);
    if limited && Depth(s.nodes, k) > bound then
      (Phase(popped, p.closed, p.expansions), None)
    else
      var closed := p.closed + [k];
      (Phase(VisitSpec(grid, goalRow, goalCol, closed, popped, k, bestFirst), closed, p.expansions + 1),
       if s.nodes[k].isGoal then Some(OperatorsString(s.nodes, k)) else None)
  }

  /** The pass from `p` reaches no goal and leads to `q`. */
  predicate Leads(grid: array2<char>, goalRow: int, goalCol: int, limited: bool, bound: int, bestFirst: bool,
                  p: Phase, q: Phase)
    reads grid
  {
    Poppable(grid, p) && Pass(grid, goalRow, goalCol, limited, bound, bestFirst, p) == (q, None)
  }

  /**
   * `trace` is a run of search's loop: every phase but the last can be
   * popped, and its pass leads to the next phase without reaching a goal.
   */
  ghost predicate Passes(grid: array2<char>, goalRow: int, goalCol: int, limited: bool, bound: int, bestFirst: bool,
                         trace: seq<Phase>)
    reads grid
  {
    forall t | 0 <= t < |trace| - 1 :: Leads(grid, goalRow, goalCol, limited, bound, bestFirst, trace[t], trace[t + 1])
  }

  /**
   * The pass from `p` for a node `k` that passes the depth check: OPEN
   * without `k` is expanded and reordered into `q`, and the outcome is
   * `k`'s operator string exactly when `k` is a goal.
   */
  lemma PassVisits(grid: array2<char>, goalRow: int, goalCol: int, limited: bool, bound: int, bestFirst: bool,
                   p: Phase, k: nat, popped: Store, q: Phase, outcome: Option<string>)
    requires Poppable(grid, p) && k == p.store.open[|p.store.open| - 1] && !(limited && Depth(p.store.nodes, k) > bound)
    requires popped == p.store.(open := p.store.open[..|p.store.open| - 1])
    requires q.closed == p.closed + [k] && q.expansions == p.expansions + 1
    requires q.store == VisitSpec(grid, goalRow, goalCol, q.closed, popped, k, bestFirst)
    requires outcome == if p.store.nodes[k].isGoal then Some(OperatorsString(p.store.nodes, k)) else None
    ensures Pass(grid, goalRow, goalCol, limited, bound, bestFirst, p) == (q, outcome)
  {
  }

  /** A pass that reaches no goal extends a run by one phase. */
  lemma PassesExtend(grid: array2<char>, goalRow: int, goalCol: int, limited: bool, bound: int, bestFirst: bool,
                     trace: seq<Phase>, next: Phase)
    requires Passes(grid, goalRow, goalCol, limited, bound, bestFirst, trace) && trace != []
    requires Poppable(grid, trace[|trace| - 1])
    requires Pass(grid, goalRow, goalCol, limited, bound, bestFirst, trace[|trace| - 1]) == (next, None)
    ensures Passes(grid, goalRow, goalCol, limited, bound, bestFirst, trace + [next])
  {
    var more := trace + [next];
    forall t | 0 <= t < |more| - 1
      ensures Leads(grid, goalRow, goalCol, limited, bound, bestFirst, more[t], more[t + 1])
    {
      if t < |trace| - 1 {
        assert Leads(grid, goalRow, goalCol, limited, bound, bestFirst, trace[t], trace[t + 1]);
      }
    }
  }

  /**
   * `trace` is a whole run of search's loop ending in phase `final` with
   * `outcome`: its passes reach no goal, and then either OPEN is empty, the
   * outcome is None and `final` is the last phase, or the pass from the
   * last phase reaches a goal, whose operator string is the outcome, and
   * leads to `final`.
   */
  ghost predicate Runs(grid: array2<char>, goalRow: int, goalCol: int, limited: bool, bound: int, bestFirst: bool,
                       trace: seq<Phase>, final: Phase, outcome: Option<string>)
    reads grid
  {
    trace != [] && Passes(grid, goalRow, goalCol, limited, bound, bestFirst, trace) &&
    if outcome.None? then
      trace[|trace| - 1] == final && final.store.open == []
    else
      Poppable(grid, trace[|trace| - 1]) &&
      Pass(grid, goalRow, goalCol, limited, bound, bestFirst, trace[|trace| - 1]) == (final, outcome)
  }

  /**
   * The pass from the last phase of a run: when it reaches no goal, the run
   * goes on with the phase it leads to; when it reaches a goal, the run is
   * whole and ends there.
   */
  lemma RunsNext(grid: array2<char>, goalRow: int, goalCol: int, limited: bool, bound: int, bestFirst: bool,
                 trace: seq<Phase>, next: Phase, outcome: Option<string>)
    requires Passes(grid, goalRow, goalCol, limited, bound, bestFirst, trace) && trace != []
    requires Poppable(grid, trace[|trace| - 1])
    requires Pass(grid, goalRow, goalCol, limited, bound, bestFirst, trace[|trace| - 1]) == (next, outcome)
    ensures outcome.None? ==> Passes(grid, goalRow, goalCol, limited, bound, bestFirst, trace + [next])
    ensures outcome.Some? ==> Runs(grid, goalRow, goalCol, limited, bound, bestFirst, trace, next, outcome)
  {
    if outcome.None? {
      PassesExtend(grid, goalRow, goalCol, limited, bound, bestFirst, trace, next);
    }
  }

  /** Two runs from the same phase agree on every phase both of them reach. */
  lemma {:induction false} RunsAgree(grid: array2<char>, goalRow: int, goalCol: int, limited: bool, bound: int,
                                     bestFirst: bool, a: seq<Phase>, b: seq<Phase>, i: nat)
    requires Passes(grid, goalRow, goalCol, limited, bound, bestFirst, a)
    requires Passes(grid, goalRow, goalCol, limited, bound, bestFirst, b)
    requires a != [] && b != [] && a[0] == b[0] && i < |a| && i < |b|
    ensures a[i] == b[i]
  {
    if i > 0 {
      RunsAgree(grid, goalRow, goalCol, limited, bound, bestFirst, a, b, i - 1);
      assert Leads(grid, goalRow, goalCol, limited, bound, bestFirst, a[i - 1], a[i]);
      assert Leads(grid, goalRow, goalCol, limited, bound, bestFirst, b[i - 1], b[i]);
    }
  }

  /** A run that ends cannot be continued: its last phase has no pass that reaches no goal. */
  lemma RunEnds(grid: array2<char>, goalRow: int, goalCol: int, limited: bool, bound: int, bestFirst: bool,
                trace: seq<Phase>, final: Phase, outcome: Option<string>, next: Phase)
    requires Runs(grid, goalRow, goalCol, limited, bound, bestFirst, trace, final, outcome)
    ensures !(Poppable(grid, trace[|trace| - 1]) &&
              Pass(grid, goalRow, goalCol, limited, bound, bestFirst, trace[|trace| - 1]) == (next, None))
  {
  }

  /**
   * search's loop is deterministic: two whole runs from the same phase are
   * the same run, with the same final phase and outcome.
   */
  lemma RunsUnique(grid: array2<char>, goalRow: int, goalCol: int, limited: bool, bound: int, bestFirst: bool,
                   a: seq<Phase>, finalA: Phase, outcomeA: Option<string>,
                   b: seq<Phase>, finalB: Phase, outcomeB: Option<string>)
    requires Runs(grid, goalRow, goalCol, limited, bound, bestFirst, a, finalA, outcomeA)
    requires Runs(grid, goalRow, goalCol, limited, bound, bestFirst, b, finalB, outcomeB)
    requires a[0] == b[0]
    ensures a == b && finalA == finalB && outcomeA == outcomeB
  {
    if |a| < |b| {
      RunsAgree(grid, goalRow, goalCol, limited, bound, bestFirst, a, b, |a| - 1);
      assert Leads(grid, goalRow, goalCol, limited, bound, bestFirst, b[|a| - 1], b[|a|]);
      RunEnds(grid, goalRow, goalCol, limited, bound, bestFirst, a, finalA, outcomeA, b[|a|]);
    } else if |b| < |a| {
      RunsAgree(grid, goalRow, goalCol, limited, bound, bestFirst, a, b, |b| - 1);
      assert Leads(grid, goalRow, goalCol, limited, bound, bestFirst, a[|b| - 1], a[|b|]);
      RunEnds(grid, goalRow, goalCol, limited, bound, bestFirst, b, finalB, outcomeB, a[|b|]);
    } else {
      forall i | 0 <= i < |a|
        ensures a[i] == b[i]
      {
        RunsAgree(grid, goalRow, goalCol, limited, bound, bestFirst, a, b, i);
      }
      assert a == b;
    }
  }

  /** The nodes in `pops` that pass the depth check, in the order they were popped. */
  ghost function Kept(nodes: seq<Node>, pops: seq<nat>, limited: bool, bound: int): seq<nat>
    requires Acyclic(nodes) && forall t | 0 <= t < |pops| :: pops[t] < |nodes|
    decreases |pops|
  {
    if pops == [] then []
    else
      var last := pops[|pops| - 1];
      Kept(nodes, pops[..|pops| - 1], limited, bound) + (if limited && Depth(nodes, last) > bound then [] else [last])
  }

  /** CLOSED is `closed0` followed by every node popped from OPEN that passed the depth check. */
  ghost predicate Popped(closed0: seq<nat>, nodes: seq<Node>, closed: seq<nat>, pops: seq<nat>, limited: bool, bound: int) {
    Acyclic(nodes) && (forall t | 0 <= t < |pops| :: pops[t] < |nodes|) &&
    closed == closed0 + Kept(nodes, pops, limited, bound)
  }

  /** Growing the arena does not change which popped nodes pass the depth check. */
  lemma {:induction false} KeptGrowth(nodes: seq<Node>, more: seq<Node>, pops: seq<nat>, limited: bool, bound: int)
    requires Acyclic(nodes) && Acyclic(more) && |nodes| <= |more| && more[..|nodes|] == nodes
    requires forall t | 0 <= t < |pops| :: pops[t] < |nodes|
    ensures Kept(more, pops, limited, bound) == Kept(nodes, pops, limited, bound)
    decreases |pops|
  {
    if pops != [] {
      KeptGrowth(nodes, more, pops[..|pops| - 1], limited, bound);
      ArenaGrowth(nodes, more, pops[|pops| - 1]);
    }
  }

  /**
   * A pass of search's loop pops `c` while the arena grows to `more`: CLOSED
   * gains `c` when it passes the depth check and is unchanged otherwise.
   */
  lemma PoppedStep(closed0: seq<nat>, nodes: seq<Node>, closed: seq<nat>, pops: seq<nat>, limited: bool, bound: int,
                   more: seq<Node>, c: nat, after: seq<nat>)
    requires Popped(closed0, nodes, closed, pops, limited, bound)
    requires Acyclic(more) && |nodes| <= |more| && more[..|nodes|] == nodes && c < |more|
    requires after == if limited && Depth(more, c) > bound then closed else closed + [c]
    ensures Popped(closed0, more, after, pops + [c], limited, bound)
  {
    KeptGrowth(nodes, more, pops, limited, bound);
    assert (pops + [c])[..|pops|] == pops;
  }

  /** A popped node that passes the depth check is among the kept ones. */
  lemma {:induction false} KeptHas(nodes: seq<Node>, pops: seq<nat>, limited: bool, bound: int, t: nat)
    requires Acyclic(nodes) && forall u | 0 <= u < |pops| :: pops[u] < |nodes|
    requires t < |pops| && !(limited && Depth(nodes, pops[t]) > bound)
    ensures pops[t] in Kept(nodes, pops, limited, bound)
    decreases |pops|
  {
    var init := pops[..|pops| - 1];
    if t < |pops| - 1 {
      assert init[t] == pops[t];
      KeptHas(nodes, init, limited, bound, t);
    }
  }

  /** While the search makes progress, no node popped so far that passed the depth check is a goal. */
  lemma NoGoalPopped(nodes0: seq<Node>, closed0: seq<nat>, nodes: seq<Node>, closed: seq<nat>, pops: seq<nat>,
                     limited: bool, bound: int)
    requires Popped(closed0, nodes, closed, pops, limited, bound)
    requires Progress(nodes0, closed0, nodes, closed, limited, bound)
    ensures forall t | 0 <= t < |pops| ::
      pops[t] < |nodes| && ((!limited || Depth(nodes, pops[t]) <= bound) ==> !nodes[pops[t]].isGoal)
  {
    var kept := Kept(nodes, pops, limited, bound);
    forall t | 0 <= t < |pops| && (!limited || Depth(nodes, pops[t]) <= bound)
      ensures !nodes[pops[t]].isGoal
    {
      KeptHas(nodes, pops, limited, bound, t);
      var u :| 0 <= u < |kept| && kept[u] == pops[t];
      assert closed[|closed0| + u] == pops[t];
    }
  }

  /**
   * A search that ends at goal `g` ends at the first popped node that passed
   * the depth check and is a goal: `g` is the last node popped, and no
   * earlier one that passed the check is a goal.
   */
  lemma FirstGoalPopped(nodes0: seq<Node>, closed0: seq<nat>, nodes: seq<Node>, closed: seq<nat>, pops: seq<nat>,
                        limited: bool, bound: int, g: nat, solution: string)
    requires Popped(closed0, nodes, closed, pops, limited, bound)
    requires Solved(nodes0, closed0, nodes, closed, limited, bound, g, solution)
    requires pops != [] && pops[|pops| - 1] == g
    ensures forall t | 0 <= t < |pops| - 1 ::
      pops[t] < |nodes| && ((!limited || Depth(nodes, pops[t]) <= bound) ==> !nodes[pops[t]].isGoal)
  {
    var init := pops[..|pops| - 1];
    var before := closed[..|closed| - 1];
    assert closed == closed0 + Kept(nodes, init, limited, bound) + [g];
    assert before == closed0 + Kept(nodes, init, limited, bound);
    NoGoalPopped(nodes0, closed0, nodes, before, init, limited, bound);
    forall t | 0 <= t < |pops| - 1
      ensures pops[t] == init[t]
    {
    }
  }

  /**
   * The string search returns for a goal node `g` that it has just closed:
   * every strict ancestor of `g` was expanded, hence closed earlier, and no
   * node closed earlier is a goal, so the goal marker "-G" appears once, at
   * the end.
   */
  lemma SolutionString(nodes: seq<Node>, closed: seq<nat>, g: nat)
    requires Acyclic(nodes) && g < |nodes| && |closed| > 0 && closed[|closed| - 1] == g && nodes[g].isGoal
    requires ParentsIn(nodes, closed) && forall t | 0 <= t < |closed| :: closed[t] < |nodes|
    requires forall t | 0 <= t < |closed| - 1 :: !nodes[closed[t]].isGoal
    ensures OperatorsString(nodes, g) == Join(OpsAlong(nodes, g)) + "-G"
  {
    var path := PathTo(nodes, g);
    PathToShape(nodes, g);
    forall t | 0 <= t < |path| - 1
      ensures !nodes[path[t]].isGoal
    {
      assert nodes[path[t + 1]].parent == Some(path[t]);
      var u :| 0 <= u < |closed| && closed[u] == path[t];
      assert path[t] < path[t + 1] <= g;
    }
    GoalMarkOnlyAtEnd(nodes, g);
  }

  /**
   * What graphsearch returns for a goal when search began with nothing
   * closed: the labels on the goal's path joined with "-" and one "-G", and
   * that path is a route on the grid from an 'S' cell to a 'G' cell, with at
   * most `bound` moves in depth-limited mode.
   */
  lemma GoalRoute(grid: array2<char>, goalRow: int, goalCol: int, s: Store, closed: seq<nat>,
                  nodes0: seq<Node>, limited: bool, bound: int, g: nat, solution: string)
    requires StoreOk(grid, goalRow, goalCol, s) && ParentsIn(s.nodes, closed)
    requires Solved(nodes0, [], s.nodes, closed, limited, bound, g, solution)
    ensures g < |s.nodes| && Acyclic(s.nodes)
    ensures solution == Join(OpsAlong(s.nodes, g)) + "-G"
    ensures RouteTo(grid, s.nodes, g)
    ensures InGrid(grid, s.nodes[g].row, s.nodes[g].col) && grid[s.nodes[g].row, s.nodes[g].col] == 'G'
    ensures limited ==> |PathTo(s.nodes, g)| - 1 <= bound
  {
    var before := closed[..|closed| - 1];
    assert Progress(nodes0, [], s.nodes, before, limited, bound);
    forall t | 0 <= t < |closed|
      ensures closed[t] < |s.nodes|
      ensures t < |closed| - 1 ==> !s.nodes[closed[t]].isGoal
    {
      if t < |closed| - 1 {
        assert closed[t] == before[t];
      }
    }
    SolutionString(s.nodes, closed, g);
    Route(grid, goalRow, goalCol, s.nodes, g);
    assert NodeOk(grid, goalRow, goalCol, s.nodes, g);
    PathToShape(s.nodes, g);
  }

  /**
   * What search's result means when it began with nothing closed, read
   * against the nodes it popped: NO-PATH means that no popped node that
   * passed the depth check is a goal and nothing closed is a goal or too
   * deep; a solution means that the last popped node is the first such
   * goal, and the solution is its operator string along a route on the
   * grid from an 'S' cell to a 'G' cell, within the bound in 'D' mode.
   */
  lemma SearchOutcome(grid: array2<char>, goalRow: int, goalCol: int, s: Store, closed: seq<nat>, nodes0: seq<Node>,
                      pops: seq<nat>, limited: bool, bound: int, found: Option<nat>, solution: string)
    requires StoreOk(grid, goalRow, goalCol, s) && ParentsIn(s.nodes, closed)
    requires Popped([], s.nodes, closed, pops, limited, bound)
    requires found.None? ==> solution == "NO-PATH" && s.open == [] && Progress(nodes0, [], s.nodes, closed, limited, bound)
    requires found.Some? ==>
      pops != [] && found.value == pops[|pops| - 1] && Solved(nodes0, [], s.nodes, closed, limited, bound, found.value, solution)
    ensures found.None? ==>
      (forall t | 0 <= t < |closed| ::
        closed[t] < |s.nodes| && !s.nodes[closed[t]].isGoal && (limited ==> Depth(s.nodes, closed[t]) <= bound)) &&
      forall t | 0 <= t < |pops| :: (!limited || Depth(s.nodes, pops[t]) <= bound) ==> !s.nodes[pops[t]].isGoal
    ensures found.Some? ==>
      var g := found.value;
      (forall t | 0 <= t < |pops| - 1 :: (!limited || Depth(s.nodes, pops[t]) <= bound) ==> !s.nodes[pops[t]].isGoal) &&
      g < |s.nodes| && IsSquare(grid) &&
      solution == Join(OpsAlong(s.nodes, g)) + "-G" && RouteTo(grid, s.nodes, g) &&
      InGrid(grid, s.nodes[g].row, s.nodes[g].col) && grid[s.nodes[g].row, s.nodes[g].col] == 'G' &&
      (limited ==> |PathTo(s.nodes, g)| - 1 <= bound)
  {
    if found.Some? {
      GoalRoute(grid, goalRow, goalCol, s, closed, nodes0, limited, bound, found.value, solution);
      FirstGoalPopped(nodes0, [], s.nodes, closed, pops, limited, bound, found.value, solution);
    } else {
      NoGoalPopped(nodes0, [], s.nodes, closed, pops, limited, bound);
    }
  }

  /** Sorting OPEN by `f` keeps the invariant: the sorted list holds the same arena indices. */
  lemma SortedOk(grid: array2<char>, nodeMap: array2<Option<nat>>, size: nat, goalRow: int, goalCol: int,
                  s: Store, closed: seq<nat>)
    requires StateOk(grid, nodeMap, size, goalRow, goalCol, s, closed)
    ensures var sorted := SortDesc(s.open, FKey(s.nodes));
      StateOk(grid, nodeMap, size, goalRow, goalCol, s.(open := sorted), closed) &&
      SortedDesc(sorted, FKey(s.nodes)) && multiset(sorted) == multiset(s.open) && |sorted| == |s.open|
  {
    var sorted := SortDesc(s.open, FKey(s.nodes));
    SortDescCorrect(s.open, FKey(s.nodes));
    forall t | 0 <= t < |sorted|
      ensures sorted[t] < |s.nodes|
    {
      assert sorted[t] in multiset(s.open);
      var u :| 0 <= u < |s.open| && s.open[u] == sorted[t];
    }
    WithOpen(grid, goalRow, goalCol, s, sorted);
  }

  /**
   * The invariant of SearchGraph: MAP and NODEMAP are size x size, NODEMAP
   * agrees with the owner table, the store keeps Expansion's invariant, and
   * CLOSED holds arena nodes.
   */
  predicate StateOk(grid: array2<char>, nodeMap: array2<Option<nat>>, size: nat, goalRow: int, goalCol: int,
                    s: Store, closed: seq<nat>)
    reads grid, nodeMap
  {
    grid.Length0 == size && grid.Length1 == size &&
    nodeMap.Length0 == size && nodeMap.Length1 == size && Mirrors(nodeMap, s.owner) &&
    StoreOk(grid, goalRow, goalCol, s) && ClosedOk(closed, s)
  }
}
