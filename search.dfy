/**
 * SearchGraph: the state planpath.py's search mutates.  `MAP` is the grid
 * of characters, `NODEMAP` the owner table (an arena index per cell, or
 * None), `OPEN` and `CLOSED` lists of arena indices.  The ghost `owner` map
 * mirrors `NODEMAP`, and the ghost `enqueued` history records every index
 * ever appended to `OPEN`; `Abs()` packs the part expand changes into the
 * `Store` that module Expansion reasons about.
 */
module Search {
  import opened Wrappers
  import opened Nodes
  import opened Moves
  import opened Expansion
  import opened Sorting
  import opened Loading
  import opened SearchSpec

  /** options['algorithm']: 'D' (depth-limited) or 'A' (best-first by f). */
  datatype Algorithm = DepthLimited | BestFirst

  /** add_map indexes past the end of the map: a missing row or a row too short. */
  datatype MapError = MalformedMap

  class SearchGraph {
    const size: nat
    const grid: array2<char>                 // MAP
    const nodeMap: array2<Option<nat>>       // NODEMAP, as arena indices
    var nodes: seq<Node>                     // every node ever stored, parents first
    var children: seq<seq<nat>>              // children[m]: node m's children list
    var open: seq<nat>                       // OPEN
    var closed: seq<nat>                     // CLOSED
    var goalRow: int                         // GOAL_COORD[0]
    var goalCol: int                         // GOAL_COORD[1]
    var nodeCount: nat                       // node_count
    var expansionCount: int                  // expansion_count
    var algorithm: Algorithm                 // options['algorithm']
    var bound: int                           // options['bound']
    ghost var owner: map<Cell, nat>          // the claimed cells of NODEMAP
    ghost var enqueued: seq<nat>             // every index ever appended to OPEN

    /** The part of the state expand changes. */
    ghost function Abs(): Store
      reads this`nodes, this`children, this`open, this`owner, this`nodeCount, this`enqueued
    {
      Store(nodes, children, open, owner, nodeCount, enqueued)
    }

    /** The part of the state a pass of search's loop changes. */
    ghost function Now(): Phase
      reads this`nodes, this`children, this`open, this`owner, this`nodeCount, this`enqueued
      reads this`closed, this`expansionCount
    {
      Phase(Abs(), closed, expansionCount)
    }

    /** MAP and NODEMAP are size x size, and NODEMAP agrees with `owner`. */
    ghost predicate Coupled()
      reads this`owner, grid, nodeMap
    {
      grid.Length0 == size && grid.Length1 == size &&
      nodeMap.Length0 == size && nodeMap.Length1 == size && Mirrors(nodeMap, owner)
    }

    /** The state keeps Expansion's invariant, and CLOSED holds arena nodes. */
    ghost predicate Valid()
      reads this`nodes, this`children, this`open, this`owner, this`nodeCount, this`enqueued
      reads this`closed, this`goalRow, this`goalCol, grid, nodeMap
    {
      StateOk(grid, nodeMap, size, goalRow, goalCol, Abs(), closed)
    }

    /** SearchGraph.__init__: an all-'0' MAP, an empty NODEMAP, and the default options. */
    constructor(size: nat)
      ensures this.size == size && fresh(grid) && fresh(nodeMap)
      ensures grid.Length0 == size == grid.Length1 && nodeMap.Length0 == size == nodeMap.Length1
      ensures forall x, y | 0 <= x < size && 0 <= y < size :: grid[x, y] == '0' && nodeMap[x, y] == None
      ensures nodes == [] && children == [] && open == [] && closed == [] && owner == map[] && enqueued == []
      ensures goalRow == 0 && goalCol == 0 && nodeCount == 0 && expansionCount == 1
      ensures algorithm == DepthLimited && bound == 10
      ensures Valid()
    {
      this.size := size;
      grid := new char[size, size]((x, y) => '0');
      nodeMap := new Option<nat>[size, size]((x, y) => None);
      nodes, children, open, closed := [], [], [], [];
      goalRow, goalCol := 0, 0;
      nodeCount, expansionCount := 0, 1;
      algorithm, bound := DepthLimited, 10;
      owner, enqueued := map[], [];
    }

    /**
     * SearchGraph.add_map: copies rows 1 .. size of the map into MAP, builds
     * a start node for every 'S' in row-major order, registers it in NODEMAP
     * and appends it to OPEN, and records in GOAL_COORD one past the row, and
     * the column, of the last 'G'.
     */
    method AddMap(lines: seq<string>)
      requires MapFits(lines, size) && Coupled()
      requires nodes == [] && children == [] && open == [] && closed == [] && owner == map[] && enqueued == []
      requires nodeCount == 0 && goalRow == 0 && goalCol == 0
      modifies this, grid, nodeMap
      ensures Valid() && ParentsClosed() && closed == []
      ensures forall x, y | 0 <= x < size && 0 <= y < size :: grid[x, y] == lines[x + 1][y]
      ensures Starts(lines, size, Abs(), size, 0) && GoalSeen(lines, size, goalRow, goalCol, size, 0)
      ensures expansionCount == old(expansionCount) && algorithm == old(algorithm) && bound == old(bound)
    {
      StartsFirst(lines, size);
      for i := 0 to size
        invariant Coupled() && closed == []
        invariant Copied(lines, size, grid, i, 0)
        invariant Starts(lines, size, Abs(), i, 0) && GoalSeen(lines, size, goalRow, goalCol, i, 0)
        invariant (expansionCount, algorithm, bound) == old((expansionCount, algorithm, bound))
      {
        LoadRow(lines, i);
      }
      CopiedAll(lines, size, grid);
      StartsOk(lines, grid, goalRow, goalCol, Abs());
      StartsAreRoots(lines, size, Abs(), size, 0);
    }

    /** One pass of add_map's outer loop: row i + 1 of the map, cell by cell. */
    method LoadRow(lines: seq<string>, i: nat)
      requires MapFits(lines, size) && i < size && Coupled()
      requires Copied(lines, size, grid, i, 0)
      requires Starts(lines, size, Abs(), i, 0) && GoalSeen(lines, size, goalRow, goalCol, i, 0)
      modifies this, grid, nodeMap
      ensures Coupled()
      ensures Copied(lines, size, grid, i + 1, 0)
      ensures Starts(lines, size, Abs(), i + 1, 0) && GoalSeen(lines, size, goalRow, goalCol, i + 1, 0)
      ensures closed == old(closed) && expansionCount == old(expansionCount)
      ensures algorithm == old(algorithm) && bound == old(bound)
    {
      for j := 0 to size
        invariant Coupled()
        invariant Copied(lines, size, grid, i, j)
        invariant Starts(lines, size, Abs(), i, j) && GoalSeen(lines, size, goalRow, goalCol, i, j)
        invariant closed == old(closed) && expansionCount == old(expansionCount)
        invariant algorithm == old(algorithm) && bound == old(bound)
      {
        ghost var s, row, col := Abs(), goalRow, goalCol;
        StartsStep(lines, size, s, i, j);
        LoadCell(lines, i, j);
        GoalStep(lines, size, row, col, i, j, goalRow, goalCol);
      }
      RowDone(lines, size, Abs(), goalRow, goalCol, i);
      CopiedRow(lines, size, grid, i);
    }

    /** The body of add_map's inner loop, for cell (i, j). */
    method LoadCell(lines: seq<string>, i: nat, j: nat)
      requires MapFits(lines, size) && i < size && j < size && Coupled()
      requires Copied(lines, size, grid, i, j)
      modifies this, grid, nodeMap
      ensures Coupled() && Abs() == LoadStep(lines, size, old(Abs()), i, j)
      ensures Copied(lines, size, grid, i, j + 1)
      ensures (goalRow, goalCol) == if lines[i + 1][j] == 'G' then (i + 1, j) else old((goalRow, goalCol))
      ensures closed == old(closed) && expansionCount == old(expansionCount)
      ensures algorithm == old(algorithm) && bound == old(bound)
    {
      grid[i, j] := lines[i + 1][j];
      var next := j + 1;
      forall x, y | Seen(size, x, y, i, next)
        ensures grid[x, y] == lines[x + 1][y]
      {
        if (x, y) != (i, j) {
          assert Seen(size, x, y, i, j);
        }
      }
      assert Copied(lines, size, grid, i, next);
      if lines[i + 1][j] == 'S' {
        PlaceStart(i, j);
      }
      if lines[i + 1][j] == 'G' {
        goalRow, goalCol := i + 1, j;
      }
    }

    /** The 'S' case of add_map's inner loop: the start node is built, registered in NODEMAP and appended to OPEN. */
    method PlaceStart(i: nat, j: nat)
      requires Coupled() && i < size && j < size
      modifies this, nodeMap
      ensures Coupled() && Abs() == AddStart(old(Abs()), i, j)
      ensures closed == old(closed) && goalRow == old(goalRow) && goalCol == old(goalCol) && expansionCount == old(expansionCount) && algorithm == old(algorithm) && bound == old(bound)
    {
      var m := |nodes|;
      nodeMap[i, j] := Some(m);
      owner := owner[(i, j) := m];
      nodes := nodes + [StartNode(nodeCount, i, j)];
      children := children + [[]];
      open := open + [m];
      enqueued := enqueued + [m];
      nodeCount := nodeCount + 1;
    }

    /**
     * One round of expand's inner loop: the move by offset (i, j) out of
     * node `k`, exactly as Expansion.Step describes it.
     */
    method Relax(k: nat, i: int, j: int)
      requires Coupled() && Shaped(Abs(), k) && IsOffset(i, j)
      modifies this, nodeMap
      ensures Coupled()
      ensures Abs() == Step(grid, goalRow, goalCol, closed, old(Abs()), k, i, j)
      ensures closed == old(closed) && goalRow == old(goalRow) && goalCol == old(goalCol)
      ensures expansionCount == old(expansionCount) && algorithm == old(algorithm) && bound == old(bound)
    {
      ghost var s := Abs();
      var p := nodes[k];
      var x, y := p.row + i, p.col + j;
      if 0 <= x && 0 <= y && x < size && y < size && !CheckRidge(grid, p.row, p.col, x, y, CheckDiagonal(i, j)) {
        assert Accepted(grid, s, k, i, j);
        Reach(k, i, j);
      } else {
        StepSkips(grid, goalRow, goalCol, closed, s, k, i, j);
      }
    }

    /**
     * The rest of a round of expand for a move that stays in the grid and
     * crosses no ridge: an unclaimed target cell is claimed by a fresh node.
     */
    method Reach(k: nat, i: int, j: int)
      requires Coupled() && Shaped(Abs(), k) && IsOffset(i, j) && Accepted(grid, Abs(), k, i, j)
      modifies this, nodeMap
      ensures Coupled()
      ensures Abs() == Step(grid, goalRow, goalCol, closed, old(Abs()), k, i, j)
      ensures closed == old(closed) && goalRow == old(goalRow) && goalCol == old(goalCol)
      ensures expansionCount == old(expansionCount) && algorithm == old(algorithm) && bound == old(bound)
    {
      ghost var s := Abs();
      var p := nodes[k];
      var x, y := p.row + i, p.col + j;
      assert Target(s, k, i, j) == (x, y);
      if nodeMap[x, y].None? {
        var candidate := Candidate(grid, goalRow, goalCol, nodes, k, i, j, nodeCount);
        ClaimTarget(k, candidate);
        StepClaims(grid, goalRow, goalCol, closed, s, k, i, j);
      } else {
        Contest(k, i, j);
      }
    }

    /**
     * A move onto a cell that already has an owner: nothing happens when
     * the owner is in CLOSED; otherwise a candidate with the owner's
     * identifier replaces the owner when strictly cheaper, and node k's
     * children list receives the cell's owner either way.
     */
    method Contest(k: nat, i: int, j: int)
      requires Coupled() && Shaped(Abs(), k) && IsOffset(i, j) && Accepted(grid, Abs(), k, i, j)
      requires Target(Abs(), k, i, j) in owner
      modifies this, nodeMap
      ensures Coupled()
      ensures Abs() == Step(grid, goalRow, goalCol, closed, old(Abs()), k, i, j)
      ensures closed == old(closed) && goalRow == old(goalRow) && goalCol == old(goalCol)
      ensures expansionCount == old(expansionCount) && algorithm == old(algorithm) && bound == old(bound)
    {
      ghost var s := Abs();
      var p := nodes[k];
      var x, y := p.row + i, p.col + j;
      assert Target(s, k, i, j) == (x, y);
      var o := nodeMap[x, y].value;
      if o in closed {
        StepSkips(grid, goalRow, goalCol, closed, s, k, i, j);
      } else {
        var candidate := Candidate(grid, goalRow, goalCol, nodes, k, i, j, nodes[o].id);
        if candidate.cost < nodes[o].cost {
          ReplaceOwner(k, candidate);
          StepReplaces(grid, goalRow, goalCol, closed, s, k, i, j);
        } else {
          children := children[k := children[k] + [nodeMap[x, y].value]];
          assert Abs() == AddChild(s, k, o);
          StepKeeps(grid, goalRow, goalCol, closed, s, k, i, j);
        }
      }
    }

    /**
     * expand's branch for a claimed cell whose candidate is cheaper: the
     * candidate becomes the cell's entry in NODEMAP, and node k's children
     * list receives it.
     */
    method ReplaceOwner(k: nat, candidate: Node)
      requires Coupled() && k < |children| && InGrid(grid, candidate.row, candidate.col)
      modifies this, nodeMap
      ensures Coupled() && Abs() == Replace(old(Abs()), k, candidate)
      ensures closed == old(closed) && goalRow == old(goalRow) && goalCol == old(goalCol)
      ensures expansionCount == old(expansionCount) && algorithm == old(algorithm) && bound == old(bound)
    {
      var m := |nodes|;
      nodeMap[candidate.row, candidate.col] := Some(m);
      owner := owner[CellOf(candidate) := m];
      nodes := nodes + [candidate];
      children := children + [[]];
      children := children[k := children[k] + [nodeMap[candidate.row, candidate.col].value]];
    }

    /**
     * expand's branch for an unclaimed cell: the candidate becomes the
     * cell's entry in NODEMAP, `node_count` goes up, the candidate is
     * appended to OPEN, and node k's children list receives it.
     */
    method ClaimTarget(k: nat, candidate: Node)
      requires Coupled() && k < |children| && InGrid(grid, candidate.row, candidate.col)
      modifies this, nodeMap
      ensures Coupled() && Abs() == Claim(old(Abs()), k, candidate)
      ensures closed == old(closed) && goalRow == old(goalRow) && goalCol == old(goalCol)
      ensures expansionCount == old(expansionCount) && algorithm == old(algorithm) && bound == old(bound)
    {
      var m := |nodes|;
      nodeMap[candidate.row, candidate.col] := Some(m);
      owner := owner[CellOf(candidate) := m];
      nodes := nodes + [candidate];
      children := children + [[]];
      nodeCount := nodeCount + 1;
      open := open + [m];
      enqueued := enqueued + [m];
      children := children[k := children[k] + [nodeMap[candidate.row, candidate.col].value]];
    }

    /** SearchGraph.expand(node k): the eight rounds, in row-major order. */
    method Expand(k: nat)
      requires Valid() && k < |nodes|
      modifies this, nodeMap
      ensures Valid()
      ensures Abs() == ExpandSpec(grid, goalRow, goalCol, closed, old(Abs()), k)
      ensures Grows(closed, k, old(Abs()), Abs())
      ensures closed == old(closed) && goalRow == old(goalRow) && goalCol == old(goalCol)
      ensures expansionCount == old(expansionCount) && algorithm == old(algorithm) && bound == old(bound)
    {
      ghost var s := Abs();
      for i := -1 to 2
        invariant Coupled()
        invariant Abs() == Fold(grid, goalRow, goalCol, closed, s, k, RoundsBefore(i, -1))
        invariant (closed, goalRow, goalCol, expansionCount, algorithm, bound) == old((closed, goalRow, goalCol, expansionCount, algorithm, bound))
      {
        ExpandRow(k, i, s);
      }
      FoldOk(grid, goalRow, goalCol, closed, s, k, 8);
      assert forall t | 0 <= t < |closed| :: closed[t] < |s.nodes| <= |nodes|;
    }

    /** One pass of expand's outer loop: the rounds for row offset i, column offsets -1, 0, 1. */
    method ExpandRow(k: nat, i: int, ghost s: Store)
      requires -1 <= i <= 1 && Coupled() && Shaped(s, k)
      requires Abs() == Fold(grid, goalRow, goalCol, closed, s, k, RoundsBefore(i, -1))
      modifies this, nodeMap
      ensures Coupled()
      ensures Abs() == Fold(grid, goalRow, goalCol, closed, s, k, RoundsBefore(i + 1, -1))
      ensures closed == old(closed) && goalRow == old(goalRow) && goalCol == old(goalCol) && expansionCount == old(expansionCount) && algorithm == old(algorithm) && bound == old(bound)
    {
      for j := -1 to 2
        invariant Coupled()
        invariant Abs() == Fold(grid, goalRow, goalCol, closed, s, k, RoundsBefore(i, j))
        invariant (closed, goalRow, goalCol, expansionCount, algorithm, bound) == old((closed, goalRow, goalCol, expansionCount, algorithm, bound))
      {
        if i != 0 || j != 0 {
          FoldRound(grid, goalRow, goalCol, closed, s, k, i, j);
          Relax(k, i, j);
        }
      }
    }

    /** graphsearch's choice of procedure: "D" sets the bound to 300, "A" selects best-first, anything else keeps the options. */
    method SetOptions(procedure: string)
      requires Valid() && ParentsClosed()
      modifies this`algorithm, this`bound
      ensures Valid() && ParentsClosed()
      ensures algorithm == (if procedure == "A" then BestFirst else if procedure == "D" then DepthLimited else old(algorithm))
      ensures bound == (if procedure == "D" then 300 else old(bound))
      ensures Abs() == old(Abs()) && goalRow == old(goalRow) && goalCol == old(goalCol) && expansionCount == old(expansionCount)
    {
      if procedure == "D" {
        bound := 300;
        algorithm := DepthLimited;
      } else if procedure == "A" {
        algorithm := BestFirst;
      }
    }

    /** Every node with a parent was built by expanding that parent, which is in CLOSED. */
    ghost predicate ParentsClosed()
      reads this`nodes, this`closed
    {
      ParentsIn(nodes, closed)
    }

    /**
     * SearchGraph.order: OPEN sorted by `f`, largest first, stably, so that
     * `pop()` takes a node of least `f`.
     */
    method Order()
      requires Valid()
      modifies this
      ensures Valid()
      ensures open == SortDesc(old(open), FKey(nodes))
      ensures SortedDesc(open, FKey(nodes)) && multiset(open) == multiset(old(open)) && |open| == |old(open)|
      ensures nodes == old(nodes) && children == old(children) && closed == old(closed) && owner == old(owner) && enqueued == old(enqueued) && nodeCount == old(nodeCount)
      ensures goalRow == old(goalRow) && goalCol == old(goalCol) && expansionCount == old(expansionCount) && algorithm == old(algorithm) && bound == old(bound)
    {
      SortedOk(grid, nodeMap, size, goalRow, goalCol, Abs(), closed);
      open := SortDesc(open, FKey(nodes));
    }

    /** The pop at the top of search's loop: the last entry of OPEN leaves it. */
    method Pop() returns (current: nat)
      requires Valid() && open != []
      modifies this
      ensures Valid() && current < |nodes|
      ensures old(open) == open + [current]
      ensures nodes == old(nodes) && children == old(children) && closed == old(closed) && owner == old(owner) && enqueued == old(enqueued) && nodeCount == old(nodeCount)
      ensures goalRow == old(goalRow) && goalCol == old(goalCol) && expansionCount == old(expansionCount) && algorithm == old(algorithm) && bound == old(bound)
    {
      var rest := open[..|open| - 1];
      current := open[|open| - 1];
      assert open == rest + [current];
      WithOpen(grid, goalRow, goalCol, Abs(), rest);
      open := rest;
    }

    /**
     * The part of search's loop that handles a node that passed the depth
     * check: it goes to CLOSED, is expanded, the counter goes up, and in
     * 'A' mode OPEN is re-sorted.
     */
    method Visit(current: nat)
      requires Valid() && ParentsClosed() && current < |nodes|
      modifies this, nodeMap
      ensures Valid() && ParentsClosed()
      ensures closed == old(closed) + [current]
      ensures Abs() == VisitSpec(grid, goalRow, goalCol, closed, old(Abs()), current, algorithm == BestFirst)
      ensures |old(nodes)| <= |nodes| && nodes[..|old(nodes)|] == old(nodes)
        && |old(enqueued)| <= |enqueued| && enqueued[..|old(enqueued)|] == old(enqueued)
      ensures |open| + old(|owner|) == old(|open|) + |owner|
      ensures algorithm == BestFirst ==> SortedDesc(open, FKey(nodes))
      ensures goalRow == old(goalRow) && goalCol == old(goalCol) && expansionCount == old(expansionCount) + 1 && algorithm == old(algorithm) && bound == old(bound)
    {
      CloseAndExpand(current);
      CountAndOrder();
    }

    /** After each expansion: expansion_count += 1, then in 'A' mode OPEN is sorted by f. */
    method CountAndOrder()
      requires Valid()
      modifies this
      ensures Valid()
      ensures Abs() == Reordered(old(Abs()), algorithm == BestFirst)
      ensures algorithm == BestFirst ==> SortedDesc(open, FKey(nodes))
      ensures |open| == |old(open)| && expansionCount == old(expansionCount) + 1
      ensures closed == old(closed) && goalRow == old(goalRow) && goalCol == old(goalCol) && algorithm == old(algorithm) && bound == old(bound)
    {
      expansionCount := expansionCount + 1;
      if algorithm == BestFirst {
        Order();
      }
    }

    /** CLOSED.append(current) followed by expand(current). */
    method CloseAndExpand(current: nat)
      requires Valid() && ParentsClosed() && current < |nodes|
      modifies this, nodeMap
      ensures Valid() && ParentsClosed()
      ensures closed == old(closed) + [current]
      ensures Abs() == ExpandSpec(grid, goalRow, goalCol, closed, old(Abs()), current)
      ensures Grows(closed, current, old(Abs()), Abs())
      ensures |old(nodes)| <= |nodes| && nodes[..|old(nodes)|] == old(nodes)
        && |old(enqueued)| <= |enqueued| && enqueued[..|old(enqueued)|] == old(enqueued)
      ensures |open| + old(|owner|) == old(|open|) + |owner|
      ensures goalRow == old(goalRow) && goalCol == old(goalCol) && expansionCount == old(expansionCount) && algorithm == old(algorithm) && bound == old(bound)
    {
      ghost var s := Abs();
      closed := closed + [current];
      Expand(current);
      ExpandParents(closed, current, s, Abs());
    }

    /**
     * One pass of search's loop, OPEN being non-empty: the last entry of
     * OPEN is popped; in 'D' mode a node deeper than the bound is dropped
     * (`outcome` is None); any other node is closed and expanded, and if it
     * is a goal `outcome` holds the operators on its path.  The depth is
     * read from the last entry before Drop or Advance pops it, which is the
     * same node the source pops first.  `nodes0`,
     * `closed0` and `enqueued0` are the arena, CLOSED and the history of OPEN
     * when the search began, and `pops` the nodes popped since.
     */
    method Round(ghost nodes0: seq<Node>, ghost closed0: seq<nat>, ghost enqueued0: seq<nat>, ghost pops: seq<nat>)
      returns (outcome: Option<string>, current: nat)
      requires Valid() && ParentsClosed() && open != [] && |owner| <= size * size
      requires Progress(nodes0, closed0, nodes, closed, algorithm == DepthLimited, bound)
      requires Popped(closed0, nodes, closed, pops, algorithm == DepthLimited, bound)
      requires |enqueued0| <= |enqueued| && enqueued[..|enqueued0|] == enqueued0
      requires algorithm == BestFirst && |closed0| < |closed| ==> SortedDesc(open, FKey(nodes))
      modifies this, nodeMap
      ensures Valid() && ParentsClosed() && |owner| <= size * size
      ensures |open| + size * size - |owner| == old(|open| + size * size - |owner|) - 1
      ensures current == old(open[|open| - 1]) && Shaped(old(Abs()), current) && Acyclic(nodes)
      ensures |old(nodes)| <= |nodes| && nodes[..|old(nodes)|] == old(nodes)
        && |old(enqueued)| <= |enqueued| && enqueued[..|old(enqueued)|] == old(enqueued)
      ensures if algorithm == DepthLimited && Depth(nodes, current) > bound then
          closed == old(closed) && outcome.None? && Abs() == old(Abs()).(open := old(open[..|open| - 1])) &&
          expansionCount == old(expansionCount)
        else
          closed == old(closed) + [current] && expansionCount == old(expansionCount) + 1 &&
          Abs() == VisitSpec(grid, goalRow, goalCol, closed, old(Abs()).(open := old(open[..|open| - 1])), current,
                             algorithm == BestFirst) &&
          outcome == if nodes[current].isGoal then Some(OperatorsString(nodes, current)) else None
      ensures Poppable(grid, old(Now())) &&
        Pass(grid, goalRow, goalCol, algorithm == DepthLimited, bound, algorithm == BestFirst, old(Now())) == (Now(), outcome)
      ensures outcome.None? ==>
        Progress(nodes0, closed0, nodes, closed, algorithm == DepthLimited, bound) &&
        (algorithm == BestFirst && |closed0| < |closed| ==> SortedDesc(open, FKey(nodes)))
      ensures outcome.Some? ==>
        Solved(nodes0, closed0, nodes, closed, algorithm == DepthLimited, bound, current, outcome.value) &&
        (algorithm == BestFirst ==> SortedDesc(open, FKey(nodes)))
      ensures Popped(closed0, nodes, closed, pops + [current], algorithm == DepthLimited, bound)
      ensures |enqueued0| <= |enqueued| && enqueued[..|enqueued0|] == enqueued0
      ensures goalRow == old(goalRow) && goalCol == old(goalCol) && algorithm == old(algorithm) && bound == old(bound)
    {
      var depth := Len(nodes, open[|open| - 1]);
      if algorithm == DepthLimited && depth > bound {
        current := Drop(nodes0, closed0, enqueued0, pops);
        outcome := None;
      } else {
        outcome, current := Advance(nodes0, closed0, enqueued0, pops);
      }
    }

    /** The pop of a node deeper than the bound in 'D' mode: it leaves OPEN and nothing else changes. */
    method Drop(ghost nodes0: seq<Node>, ghost closed0: seq<nat>, ghost enqueued0: seq<nat>, ghost pops: seq<nat>)
      returns (current: nat)
      requires Valid() && ParentsClosed() && open != [] && |owner| <= size * size
      requires open[|open| - 1] < |nodes| && Acyclic(nodes)
      requires algorithm == DepthLimited && Depth(nodes, open[|open| - 1]) > bound
      requires Progress(nodes0, closed0, nodes, closed, algorithm == DepthLimited, bound)
      requires Popped(closed0, nodes, closed, pops, algorithm == DepthLimited, bound)
      requires |enqueued0| <= |enqueued| && enqueued[..|enqueued0|] == enqueued0
      modifies this
      ensures Valid() && ParentsClosed() && |owner| <= size * size
      ensures |open| + size * size - |owner| == old(|open| + size * size - |owner|) - 1
      ensures current == old(open[|open| - 1]) && Shaped(old(Abs()), current) && Acyclic(nodes)
      ensures |old(nodes)| <= |nodes| && nodes[..|old(nodes)|] == old(nodes)
        && |old(enqueued)| <= |enqueued| && enqueued[..|old(enqueued)|] == old(enqueued)
      ensures Depth(nodes, current) > bound && closed == old(closed) && expansionCount == old(expansionCount)
      ensures Abs() == old(Abs()).(open := old(open[..|open| - 1]))
      ensures Poppable(grid, old(Now())) &&
        Pass(grid, goalRow, goalCol, algorithm == DepthLimited, bound, algorithm == BestFirst, old(Now())) == (Now(), None)
      ensures Progress(nodes0, closed0, nodes, closed, algorithm == DepthLimited, bound)
      ensures Popped(closed0, nodes, closed, pops + [current], algorithm == DepthLimited, bound)
      ensures |enqueued0| <= |enqueued| && enqueued[..|enqueued0|] == enqueued0
      ensures goalRow == old(goalRow) && goalCol == old(goalCol) && algorithm == old(algorithm) && bound == old(bound)
    {
      current := Pop();
      PoppedStep(closed0, nodes, closed, pops, algorithm == DepthLimited, bound, nodes, current, closed);
    }

    /**
     * A pass of search's loop for a node that passes the depth check: it is
     * popped, its operator string is built, it is closed and expanded, and
     * the string is the outcome if it is a goal.
     */
    method Advance(ghost nodes0: seq<Node>, ghost closed0: seq<nat>, ghost enqueued0: seq<nat>, ghost pops: seq<nat>)
      returns (outcome: Option<string>, current: nat)
      requires Valid() && ParentsClosed() && open != [] && open[|open| - 1] < |nodes| && Acyclic(nodes)
      requires Progress(nodes0, closed0, nodes, closed, algorithm == DepthLimited, bound)
      requires Popped(closed0, nodes, closed, pops, algorithm == DepthLimited, bound)
      requires |enqueued0| <= |enqueued| && enqueued[..|enqueued0|] == enqueued0
      requires algorithm == DepthLimited ==> Depth(nodes, open[|open| - 1]) <= bound
      modifies this, nodeMap
      ensures Valid() && ParentsClosed() && |owner| <= size * size
      ensures |open| + size * size - |owner| == old(|open| + size * size - |owner|) - 1
      ensures current == old(open[|open| - 1]) && Shaped(old(Abs()), current) && closed == old(closed) + [current]
      ensures expansionCount == old(expansionCount) + 1
      ensures Abs() == VisitSpec(grid, goalRow, goalCol, closed, old(Abs()).(open := old(open[..|open| - 1])), current,
                                 algorithm == BestFirst)
      ensures Poppable(grid, old(Now())) &&
        Pass(grid, goalRow, goalCol, algorithm == DepthLimited, bound, algorithm == BestFirst, old(Now())) == (Now(), outcome)
      ensures |old(nodes)| <= |nodes| && nodes[..|old(nodes)|] == old(nodes)
        && |old(enqueued)| <= |enqueued| && enqueued[..|old(enqueued)|] == old(enqueued)
      ensures Acyclic(nodes) && Depth(nodes, current) == Depth(old(nodes), current)
      ensures outcome == if nodes[current].isGoal then Some(OperatorsString(nodes, current)) else None
      ensures outcome.None? ==> Progress(nodes0, closed0, nodes, closed, algorithm == DepthLimited, bound)
      ensures outcome.Some? ==> Solved(nodes0, closed0, nodes, closed, algorithm == DepthLimited, bound, current, outcome.value)
      ensures algorithm == BestFirst ==> SortedDesc(open, FKey(nodes))
      ensures Popped(closed0, nodes, closed, pops + [current], algorithm == DepthLimited, bound)
      ensures |enqueued0| <= |enqueued| && enqueued[..|enqueued0|] == enqueued0
      ensures goalRow == old(goalRow) && goalCol == old(goalCol) && algorithm == old(algorithm) && bound == old(bound)
    {
      current := Pop();
      ghost var popped := Abs();
      var generated := OperatorsToRoot(nodes, current);
      Visit(current);
      ClaimedBound(grid, goalRow, goalCol, Abs());
      ProgressStep(nodes0, closed0, old(nodes), old(closed), algorithm == DepthLimited, bound, nodes, current);
      PoppedStep(closed0, old(nodes), old(closed), pops, algorithm == DepthLimited, bound, nodes, current, closed);
      PrefixOfPrefix(enqueued0, old(enqueued), enqueued);
      PassVisits(grid, goalRow, goalCol, algorithm == DepthLimited, bound, algorithm == BestFirst,
                 old(Now()), current, popped, Now(), if nodes[current].isGoal then Some(generated) else None);
      if nodes[current].isGoal {
        return Some(generated), current;
      }
      return None, current;
    }

    /**
     * What holds before each pass of search's loop, which began in phase
     * `start` (arena, CLOSED and OPEN's history): the state invariants,
     * CLOSED grown by the popped nodes `pops` that pass the depth check, and
     * `trace` the run of phases so far, from `start` to the current one.
     */
    ghost predicate Looping(nodes0: seq<Node>, closed0: seq<nat>, enqueued0: seq<nat>, start: Phase,
                            pops: seq<nat>, trace: seq<Phase>)
      reads this, grid, nodeMap
    {
      Valid() && ParentsClosed() && |owner| <= size * size &&
      trace != [] && trace[0] == start && trace[|trace| - 1] == Now() &&
      Passes(grid, goalRow, goalCol, algorithm == DepthLimited, bound, algorithm == BestFirst, trace) &&
      Progress(nodes0, closed0, nodes, closed, algorithm == DepthLimited, bound) &&
      Popped(closed0, nodes, closed, pops, algorithm == DepthLimited, bound) &&
      |enqueued0| <= |enqueued| && enqueued[..|enqueued0|] == enqueued0 &&
      (algorithm == BestFirst && |closed0| < |closed| ==> SortedDesc(open, FKey(nodes)))
    }

    /**
     * One pass of search's loop together with its history: Round pops
     * `current`, which joins `pops`; when no goal is reached the new phase
     * joins the run `trace`, and when a goal is reached the run is whole.
     */
    method Turn(ghost nodes0: seq<Node>, ghost closed0: seq<nat>, ghost enqueued0: seq<nat>, ghost start: Phase,
                ghost pops: seq<nat>, ghost trace: seq<Phase>)
      returns (outcome: Option<string>, current: nat, ghost pops': seq<nat>, ghost trace': seq<Phase>)
      requires Looping(nodes0, closed0, enqueued0, start, pops, trace) && open != []
      modifies this, nodeMap
      ensures |open| + size * size - |owner| < old(|open| + size * size - |owner|)
      ensures goalRow == old(goalRow) && goalCol == old(goalCol) && algorithm == old(algorithm) && bound == old(bound)
      ensures pops' == pops + [current]
      ensures outcome.None? ==> trace' == trace + [Now()] && Looping(nodes0, closed0, enqueued0, start, pops', trace')
      ensures outcome.Some? ==>
        trace' == trace && pops' != [] && pops'[|pops'| - 1] == current && Valid() && ParentsClosed() &&
        trace' != [] && trace'[0] == start &&
        Runs(grid, goalRow, goalCol, algorithm == DepthLimited, bound, algorithm == BestFirst, trace', Now(), outcome) &&
        Popped(closed0, nodes, closed, pops', algorithm == DepthLimited, bound) &&
        Solved(nodes0, closed0, nodes, closed, algorithm == DepthLimited, bound, current, outcome.value) &&
        |enqueued0| <= |enqueued| && enqueued[..|enqueued0|] == enqueued0 &&
        (algorithm == BestFirst ==> SortedDesc(open, FKey(nodes)))
    {
      outcome, current := Round(nodes0, closed0, enqueued0, pops);
      pops' := pops + [current];
      RunsNext(grid, goalRow, goalCol, algorithm == DepthLimited, bound, algorithm == BestFirst, trace, Now(), outcome);
      trace' := if outcome.None? then trace + [Now()] else trace;
    }

    /**
     * The while loop of search, from a state where `Looping` holds: passes
     * run until OPEN is empty, with `outcome` None, or until a pass reaches
     * a goal `current`, with its operator string as `outcome`.
     */
    method Sweep(ghost nodes0: seq<Node>, ghost closed0: seq<nat>, ghost enqueued0: seq<nat>, ghost start: Phase,
                 ghost pops0: seq<nat>, ghost trace0: seq<Phase>)
      returns (outcome: Option<string>, current: nat, ghost pops: seq<nat>, ghost trace: seq<Phase>)
      requires Looping(nodes0, closed0, enqueued0, start, pops0, trace0)
      modifies this, nodeMap
      ensures goalRow == old(goalRow) && goalCol == old(goalCol) && algorithm == old(algorithm) && bound == old(bound)
      ensures outcome.None? ==> open == [] && Looping(nodes0, closed0, enqueued0, start, pops, trace)
      ensures outcome.Some? ==>
        pops != [] && pops[|pops| - 1] == current && Valid() && ParentsClosed() &&
        trace != [] && trace[0] == start &&
        Runs(grid, goalRow, goalCol, algorithm == DepthLimited, bound, algorithm == BestFirst, trace, Now(), outcome) &&
        Popped(closed0, nodes, closed, pops, algorithm == DepthLimited, bound) &&
        Solved(nodes0, closed0, nodes, closed, algorithm == DepthLimited, bound, current, outcome.value) &&
        |enqueued0| <= |enqueued| && enqueued[..|enqueued0|] == enqueued0 &&
        (algorithm == BestFirst ==> SortedDesc(open, FKey(nodes)))
    {
      outcome, current, pops, trace := None, 0, pops0, trace0;
      while |open| > 0
        invariant outcome.None? && Looping(nodes0, closed0, enqueued0, start, pops, trace)
        invariant goalRow == old(goalRow) && goalCol == old(goalCol) && algorithm == old(algorithm) && bound == old(bound)
        decreases |open| + size * size - |owner|
      {
        outcome, current, pops, trace := Turn(nodes0, closed0, enqueued0, start, pops, trace);
        if outcome.Some? {
          return;
        }
      }
    }

    /**
     * SearchGraph.search: runs search's loop until OPEN is empty, which
     * gives "NO-PATH", or a goal is closed, whose operators are returned.
     * `found` is that goal node, and `pops` lists the nodes popped from
     * OPEN, in order.
     */
    method Search() returns (solution: string, ghost found: Option<nat>, ghost pops: seq<nat>, ghost trace: seq<Phase>)
      requires Valid() && ParentsClosed()
      modifies this, nodeMap
      ensures Valid() && ParentsClosed()
      ensures trace != [] && trace[0] == old(Now())
      ensures Runs(grid, goalRow, goalCol, algorithm == DepthLimited, bound, algorithm == BestFirst, trace, Now(),
                   if found.Some? then Some(solution) else None)
      ensures Popped(old(closed), nodes, closed, pops, algorithm == DepthLimited, bound)
      ensures found.Some? ==> pops != [] && found.value == pops[|pops| - 1]
      ensures |old(enqueued)| <= |enqueued| && enqueued[..|old(enqueued)|] == old(enqueued)
      ensures found.None? ==>
        solution == "NO-PATH" && open == [] &&
        Progress(old(nodes), old(closed), nodes, closed, algorithm == DepthLimited, bound)
      ensures found.Some? ==>
        Solved(old(nodes), old(closed), nodes, closed, algorithm == DepthLimited, bound, found.value, solution)
      ensures algorithm == BestFirst && |old(closed)| < |closed| ==> SortedDesc(open, FKey(nodes))
      ensures goalRow == old(goalRow) && goalCol == old(goalCol) && algorithm == old(algorithm) && bound == old(bound)
    {
      ClaimedBound(grid, goalRow, goalCol, Abs());
      var outcome, current;
      outcome, current, pops, trace := Sweep(old(nodes), old(closed), old(enqueued), old(Now()), [], [Now()]);
      if outcome.Some? {
        return outcome.value, Some(current), pops, trace;
      }
      return "NO-PATH", None, pops, trace;
    }
  }

  /**
   * The first half of graphsearch: a fresh search graph for `size` rows with
   * the map loaded and the options `procedure` selects ("D": depth-limited
   * with bound 300, "A": best-first by f, anything else: the defaults,
   * depth-limited with bound 10).
   */
  method Prepare(lines: seq<string>, size: nat, procedure: string) returns (sg: SearchGraph)
    requires MapFits(lines, size)
    ensures fresh(sg) && fresh(sg.nodeMap) && sg.size == size && sg.Valid() && sg.ParentsClosed() && sg.closed == []
    ensures Starts(lines, size, sg.Abs(), size, 0) && GoalSeen(lines, size, sg.goalRow, sg.goalCol, size, 0)
    ensures sg.expansionCount == 1
    ensures sg.grid.Length0 == size == sg.grid.Length1
    ensures forall x, y | 0 <= x < size && 0 <= y < size :: sg.grid[x, y] == lines[x + 1][y]
    ensures sg.algorithm == (if procedure == "A" then BestFirst else DepthLimited)
    ensures sg.bound == (if procedure == "D" then 300 else 10)
  {
    sg := new SearchGraph(size);
    sg.AddMap(lines);
    sg.SetOptions(procedure);
  }

  /**
   * The second half of graphsearch, on a prepared search graph: search's
   * loop runs, and the outcome is read against the nodes it popped.
   */
  method Explore(sg: SearchGraph)
    returns (solution: string, ghost found: Option<nat>, ghost pops: seq<nat>, ghost trace: seq<Phase>)
    requires sg.Valid() && sg.ParentsClosed() && sg.closed == []
    modifies sg, sg.nodeMap
    ensures sg.algorithm == old(sg.algorithm) && sg.bound == old(sg.bound)
    ensures sg.goalRow == old(sg.goalRow) && sg.goalCol == old(sg.goalCol)
    ensures trace != [] && trace[0] == old(sg.Now())
    ensures Runs(sg.grid, sg.goalRow, sg.goalCol, sg.algorithm == DepthLimited, sg.bound, sg.algorithm == BestFirst,
                 trace, sg.Now(), if found.Some? then Some(solution) else None)
    ensures Acyclic(sg.nodes) && (forall t | 0 <= t < |pops| :: pops[t] < |sg.nodes|) &&
      sg.closed == Kept(sg.nodes, pops, sg.algorithm == DepthLimited, sg.bound)
    ensures found.None? ==>
      solution == "NO-PATH" && sg.open == [] &&
      (forall t | 0 <= t < |sg.closed| ::
        sg.closed[t] < |sg.nodes| && !sg.nodes[sg.closed[t]].isGoal &&
        (sg.algorithm == DepthLimited ==> Depth(sg.nodes, sg.closed[t]) <= sg.bound)) &&
      forall t | 0 <= t < |pops| ::
        (sg.algorithm != DepthLimited || Depth(sg.nodes, pops[t]) <= sg.bound) ==> !sg.nodes[pops[t]].isGoal
    ensures found.Some? ==>
      var g := found.value;
      pops != [] && pops[|pops| - 1] == g &&
      (forall t | 0 <= t < |pops| - 1 ::
        (sg.algorithm != DepthLimited || Depth(sg.nodes, pops[t]) <= sg.bound) ==> !sg.nodes[pops[t]].isGoal) &&
      g < |sg.nodes| && IsSquare(sg.grid) &&
      solution == Join(OpsAlong(sg.nodes, g)) + "-G" && RouteTo(sg.grid, sg.nodes, g) &&
      InGrid(sg.grid, sg.nodes[g].row, sg.nodes[g].col) &&
      sg.grid[sg.nodes[g].row, sg.nodes[g].col] == 'G' &&
      (sg.algorithm == DepthLimited ==> |PathTo(sg.nodes, g)| - 1 <= sg.bound)
  {
    ghost var nodes0 := sg.nodes;
    solution, found, pops, trace := sg.Search();
    SearchOutcome(sg.grid, sg.goalRow, sg.goalCol, sg.Abs(), sg.closed, nodes0, pops,
                  sg.algorithm == DepthLimited, sg.bound, found, solution);
  }

  /**
   * graphsearch: prepares the search graph and searches.  A map too short
   * for `size` fails in add_map.  The run of search's loop starts in the
   * loaded phase and is whole.  When a goal is found the answer is the
   * labels on its path joined with "-" and one "-G", the path is a route on
   * the map from an 'S' cell to a 'G' cell, and in depth-limited mode it has
   * at most `bound` moves.
   */
  method GraphSearch(lines: seq<string>, size: nat, procedure: string)
    returns (r: Result<string, MapError>, ghost graph: SearchGraph?, ghost found: Option<nat>, ghost pops: seq<nat>,
             ghost trace: seq<Phase>)
    ensures r.Failure? <==> !MapFits(lines, size)
    ensures r.Success? ==>
      graph != null && trace != [] &&
      Starts(lines, size, trace[0].store, size, 0) && GoalSeen(lines, size, graph.goalRow, graph.goalCol, size, 0) &&
      trace[0].closed == [] && trace[0].expansions == 1 &&
      Runs(graph.grid, graph.goalRow, graph.goalCol, graph.algorithm == DepthLimited, graph.bound,
           graph.algorithm == BestFirst, trace, graph.Now(), if found.Some? then Some(r.value) else None)
    ensures r.Success? ==>
      graph != null && graph.size == size && graph.grid.Length0 == size == graph.grid.Length1 &&
      graph.algorithm == (if procedure == "A" then BestFirst else DepthLimited) &&
      graph.bound == (if procedure == "D" then 300 else 10) &&
      forall x, y | 0 <= x < size && 0 <= y < size :: graph.grid[x, y] == lines[x + 1][y]
    ensures r.Success? ==>
      Acyclic(graph.nodes) && (forall t | 0 <= t < |pops| :: pops[t] < |graph.nodes|) &&
      graph.closed == Kept(graph.nodes, pops, graph.algorithm == DepthLimited, graph.bound)
    ensures r.Success? && found.None? ==>
      r.value == "NO-PATH" && graph.open == [] &&
      (forall t | 0 <= t < |graph.closed| ::
        graph.closed[t] < |graph.nodes| && !graph.nodes[graph.closed[t]].isGoal &&
        (graph.algorithm == DepthLimited ==> Depth(graph.nodes, graph.closed[t]) <= graph.bound)) &&
      forall t | 0 <= t < |pops| ::
        (graph.algorithm != DepthLimited || Depth(graph.nodes, pops[t]) <= graph.bound) ==> !graph.nodes[pops[t]].isGoal
    ensures r.Success? && found.Some? ==>
      var g := found.value;
      pops != [] && pops[|pops| - 1] == g &&
      (forall t | 0 <= t < |pops| - 1 ::
        (graph.algorithm != DepthLimited || Depth(graph.nodes, pops[t]) <= graph.bound) ==> !graph.nodes[pops[t]].isGoal) &&
      g < |graph.nodes| && IsSquare(graph.grid) &&
      r.value == Join(OpsAlong(graph.nodes, g)) + "-G" && RouteTo(graph.grid, graph.nodes, g) &&
      InGrid(graph.grid, graph.nodes[g].row, graph.nodes[g].col) &&
      graph.grid[graph.nodes[g].row, graph.nodes[g].col] == 'G' &&
      (graph.algorithm == DepthLimited ==> |PathTo(graph.nodes, g)| - 1 <= graph.bound)
  {
    if !MapFits(lines, size) {
      return Failure(MalformedMap), null, None, [], [];
    }
    var sg := Prepare(lines, size, procedure);
    var solution;
    solution, found, pops, trace := Explore(sg);
    graph := sg;
    r := Success(solution);
  }
}
