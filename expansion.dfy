/**
 * SearchGraph.expand, stated on values.
 *
 * A `Store` is the part of the search state that expand changes: the arena
 * of nodes, each node's `children` list, `OPEN`, the owner table `NODEMAP`
 * (a map from cell to the arena index of the cell's current node), the
 * counter `node_count`, and the history of every index ever appended to
 * `OPEN`.  `Step` is one round of expand's inner loop, `ExpandSpec` the
 * eight rounds in order.  `StoreOk` is the invariant every reachable state
 * keeps; `Grows` relates a state to any later state of the same expansion.
 */
module Expansion {
  import opened Wrappers
  import opened Nodes
  import opened Moves

  function CellOf(nd: Node): Cell {
    (nd.row, nd.col)
  }

  datatype Store = Store(
    nodes: seq<Node>,
    children: seq<seq<nat>>,   // children[m]: the children list of arena node m
    open: seq<nat>,            // OPEN, as arena indices
    owner: map<Cell, nat>,     // the claimed cells of NODEMAP, to arena indices
    nodeCount: nat,            // node_count
    enqueued: seq<nat>)        // every index ever appended to OPEN, in order

  /**
   * What is true of node `k` from the moment it is built: f = cost +
   * heuristic; a start node sits on an 'S' cell with cost 0 and heuristic 0;
   * any other node is one accepted move away from its parent, labelled by
   * that move, costs the parent's cost plus the move's, and carries the
   * heuristic and the goal flag of its cell.
   */
  predicate NodeOk(grid: array2<char>, goalRow: int, goalCol: int, nodes: seq<Node>, k: nat)
    reads grid
    requires IsSquare(grid) && k < |nodes|
  {
    var nd := nodes[k];
    InGrid(grid, nd.row, nd.col) && nd.f == nd.cost + nd.heuristic &&
    match nd.parent
    case None =>
      nd.op == "S" && nd.cost == 0 && nd.heuristic == 0 && !nd.isGoal && grid[nd.row, nd.col] == 'S'
    case Some(p) =>
      p < k &&
      var q := nodes[p];
      LegalMove(grid, CellOf(q), CellOf(nd)) &&
      nd.op == Label(nd.row - q.row, nd.col - q.col) &&
      nd.cost == q.cost + GetCost(CheckDiagonal(nd.row - q.row, nd.col - q.col)) &&
      nd.heuristic == Heuristic(goalRow, goalCol, nd.row, nd.col) &&
      nd.isGoal == CheckGoal(grid, nd.row, nd.col)
  }

  /** Every node is well formed and parents come first. */
  predicate ArenaOk(grid: array2<char>, goalRow: int, goalCol: int, nodes: seq<Node>)
    reads grid
  {
    IsSquare(grid) && Acyclic(nodes) &&
    forall k | 0 <= k < |nodes| :: NodeOk(grid, goalRow, goalCol, nodes, k)
  }

  /**
   * Identifiers: `enqueued[t]` is the node that claimed a cell with
   * identifier t, every node carries the identifier of its cell, and
   * `node_count` is the number of claimed cells and of entries ever
   * appended to `OPEN`.
   */
  predicate IdsOk(s: Store) {
    s.nodeCount == |s.enqueued| == |s.owner| &&
    (forall t | 0 <= t < |s.enqueued| :: s.enqueued[t] < |s.nodes| && s.nodes[s.enqueued[t]].id == t) &&
    (forall k | 0 <= k < |s.nodes| :: s.nodes[k].id < |s.enqueued| && IdCell(s, s.nodes[k].id) == CellOf(s.nodes[k]))
  }

  /** The owner of a cell sits on that cell, and every node's cell is claimed by a node with the same identifier. */
  predicate OwnersOk(s: Store) {
    OwnersOnCells(s) &&
    (forall k | 0 <= k < |s.nodes| :: CellOf(s.nodes[k]) in s.owner && OwnerId(s, CellOf(s.nodes[k])) == s.nodes[k].id)
  }

  /** The owner of a cell is an arena node that sits on it. */
  predicate OwnersOnCells(s: Store) {
    forall c | c in s.owner :: s.owner[c] < |s.nodes| && CellOf(s.nodes[s.owner[c]]) == c
  }

  /** `OPEN` and the children lists refer to arena nodes. */
  predicate RefsOk(s: Store) {
    |s.children| == |s.nodes| &&
    (forall t | 0 <= t < |s.open| :: s.open[t] < |s.nodes|) &&
    (forall m | 0 <= m < |s.children| :: forall t | 0 <= t < |s.children[m]| :: s.children[m][t] < |s.nodes|)
  }

  /** The invariant of the search state. */
  predicate StoreOk(grid: array2<char>, goalRow: int, goalCol: int, s: Store)
    reads grid
  {
    ArenaOk(grid, goalRow, goalCol, s.nodes) && IdsOk(s) && OwnersOk(s) && RefsOk(s)
  }

  /** NODEMAP holds, for each cell of the grid, the owner's arena index, and None for an unclaimed cell. */
  predicate Mirrors(nodeMap: array2<Option<nat>>, owner: map<Cell, nat>)
    reads nodeMap
  {
    forall x, y | 0 <= x < nodeMap.Length0 && 0 <= y < nodeMap.Length1 ::
      nodeMap[x, y] == if (x, y) in owner then Some(owner[(x, y)]) else None
  }

  /** CLOSED holds arena indices. */
  predicate ClosedOk(closed: seq<nat>, s: Store) {
    forall t | 0 <= t < |closed| :: closed[t] < |s.nodes|
  }

  /** The cell of the node that introduced identifier `id`. */
  function IdCell(s: Store, id: nat): Cell {
    if id < |s.enqueued| && s.enqueued[id] < |s.nodes| then CellOf(s.nodes[s.enqueued[id]]) else (-1, -1)
  }

  /** The identifier of the current owner of cell `c`. */
  function OwnerId(s: Store, c: Cell): int {
    if c in s.owner && s.owner[c] < |s.nodes| then s.nodes[s.owner[c]].id else -1
  }

  /** Enough shape for one round of expansion out of node `k` to be defined. */
  predicate Shaped(s: Store, k: nat) {
    k < |s.nodes| && |s.children| == |s.nodes| &&
    forall c | c in s.owner :: s.owner[c] < |s.nodes|
  }

  /** A fresh node `nd` claims its cell: it becomes the owner and is appended to `OPEN`. */
  function Claim(s: Store, k: nat, nd: Node): Store
    requires k < |s.children|
  {
    var m := |s.nodes|;
    s.(nodes := s.nodes + [nd],
       children := (s.children + [[]])[k := s.children[k] + [m]],
       open := s.open + [m],
       owner := s.owner[CellOf(nd) := m],
       nodeCount := s.nodeCount + 1,
       enqueued := s.enqueued + [m])
  }

  /** A cheaper candidate `nd` replaces its cell's owner; `OPEN` is left alone. */
  function Replace(s: Store, k: nat, nd: Node): Store
    requires k < |s.children|
  {
    var m := |s.nodes|;
    s.(nodes := s.nodes + [nd],
       children := (s.children + [[]])[k := s.children[k] + [m]],
       owner := s.owner[CellOf(nd) := m])
  }

  /** Node `k`'s children list receives the unchanged owner `o`. */
  function AddChild(s: Store, k: nat, o: nat): Store
    requires k < |s.children|
  {
    s.(children := s.children[k := s.children[k] + [o]])
  }

  /**
   * One round of expand's inner loop: the move by offset (i, j) out of node
   * `k`.  A target outside the grid, across a ridge, or whose owner is in
   * `closed` changes nothing.  An unclaimed target gets a fresh node with
   * identifier `node_count`, which becomes its owner and is appended to
   * `OPEN`.  A claimed target gets a candidate with the owner's identifier,
   * which replaces the owner only when strictly cheaper and never enters
   * `OPEN`.  Either way node `k`'s children list receives the target's
   * owner as it stands afterwards.
   */
  function Step(grid: array2<char>, goalRow: int, goalCol: int, closed: seq<nat>, s: Store, k: nat, i: int, j: int): (r: Store)
    reads grid
    requires IsSquare(grid) && Shaped(s, k) && IsOffset(i, j)
    ensures Shaped(r, k) && |s.nodes| <= |r.nodes| && r.nodes[..|s.nodes|] == s.nodes
  {
    var p := s.nodes[k];
    var x, y := p.row + i, p.col + j;
    var diagonal := CheckDiagonal(i, j);
    if !(0 <= x && 0 <= y && x < grid.Length0 && y < grid.Length0) then s
    else if CheckRidge(grid, p.row, p.col, x, y, diagonal) then s
    else
      if (x, y) in s.owner then
        var o := s.owner[(x, y)];
        var candidate := Candidate(grid, goalRow, goalCol, s.nodes, k, i, j, s.nodes[o].id);
        if o in closed then s
        else if candidate.cost < s.nodes[o].cost then Replace(s, k, candidate)
        else AddChild(s, k, o)
      else
        Claim(s, k, Candidate(grid, goalRow, goalCol, s.nodes, k, i, j, s.nodeCount))
  }

  /** The first `count` rounds of expand, in the order of OFFSETS. */
  function Fold(grid: array2<char>, goalRow: int, goalCol: int, closed: seq<nat>, s: Store, k: nat, count: nat): (r: Store)
    reads grid
    requires IsSquare(grid) && Shaped(s, k) && count <= 8
    ensures Shaped(r, k) && |s.nodes| <= |r.nodes| && r.nodes[..|s.nodes|] == s.nodes
  {
    if count == 0 then s
    else
      OffsetsValid();
      var t := Fold(grid, goalRow, goalCol, closed, s, k, count - 1);
      Step(grid, goalRow, goalCol, closed, t, k, OFFSETS[count - 1].0, OFFSETS[count - 1].1)
  }

  /** How many rounds of expand come before offset (i, j), (0, 0) not being one. */
  function RoundsBefore(i: int, j: int): nat
    requires -1 <= i <= 2 && -1 <= j <= 2
  {
    (i + 1) * 3 + (j + 1) - (if i > 0 || (i == 0 && j > 0) then 1 else 0)
  }

  /** The round for offset (i, j) uses exactly that offset. */
  lemma RoundOf(i: int, j: int)
    requires IsOffset(i, j)
    ensures RoundsBefore(i, j) < 8 && OFFSETS[RoundsBefore(i, j)] == (i, j)
  {
  }

  /** The round for offset (i, j) extends the rounds before it by the step for (i, j). */
  lemma FoldRound(grid: array2<char>, goalRow: int, goalCol: int, closed: seq<nat>, s: Store, k: nat, i: int, j: int)
    requires IsSquare(grid) && Shaped(s, k) && IsOffset(i, j)
    ensures RoundsBefore(i, j) < 8 && Shaped(Fold(grid, goalRow, goalCol, closed, s, k, RoundsBefore(i, j)), k)
    ensures Fold(grid, goalRow, goalCol, closed, s, k, RoundsBefore(i, j + 1)) ==
      Step(grid, goalRow, goalCol, closed, Fold(grid, goalRow, goalCol, closed, s, k, RoundsBefore(i, j)), k, i, j)
  {
    RoundOf(i, j);
    assert RoundsBefore(i, j + 1) == RoundsBefore(i, j) + 1;
  }

  /** expand(node k): all eight rounds. */
  function ExpandSpec(grid: array2<char>, goalRow: int, goalCol: int, closed: seq<nat>, s: Store, k: nat): Store
    reads grid
    requires IsSquare(grid) && Shaped(s, k)
  {
    Fold(grid, goalRow, goalCol, closed, s, k, 8)
  }

  /** The arena only grows, and every node added is a child of `k`. */
  ghost predicate ArenaGrows(k: nat, s: Store, r: Store) {
    |s.nodes| <= |r.nodes| && r.nodes[..|s.nodes|] == s.nodes &&
    forall m | |s.nodes| <= m < |r.nodes| :: r.nodes[m].parent == Some(k)
  }

  /**
   * `OPEN` only grows, by fresh nodes of cells that were unclaimed, one per
   * newly claimed cell, and the history records them.
   */
  ghost predicate OpenGrows(s: Store, r: Store) {
    |s.open| <= |r.open| && r.open[..|s.open|] == s.open &&
    r.enqueued == s.enqueued + r.open[|s.open|..] &&
    |r.owner| - |s.owner| == |r.open| - |s.open| &&
    forall t | |s.open| <= t < |r.open| ::
      |s.nodes| <= r.open[t] < |r.nodes| && CellOf(r.nodes[r.open[t]]) !in s.owner
  }

  /**
   * Claimed cells stay claimed; a closed owner stays; any other owner
   * changes only to a strictly cheaper node that is not in `OPEN`.
   */
  ghost predicate OwnersImprove(closed: seq<nat>, s: Store, r: Store) {
    s.owner.Keys <= r.owner.Keys &&
    (forall c | c in s.owner && s.owner[c] in closed :: r.owner[c] == s.owner[c]) &&
    forall c | c in s.owner && r.owner[c] != s.owner[c] ::
      s.owner[c] < |s.nodes| && r.owner[c] < |r.nodes| &&
      r.nodes[r.owner[c]].cost < s.nodes[s.owner[c]].cost && r.owner[c] !in r.open
  }

  /** How a state after part of an expansion of node `k` relates to the state before it. */
  ghost predicate Grows(closed: seq<nat>, k: nat, s: Store, r: Store) {
    ArenaGrows(k, s, r) && OpenGrows(s, r) && OwnersImprove(closed, s, r)
  }

  lemma NodeOkAppend(grid: array2<char>, goalRow: int, goalCol: int, nodes: seq<Node>, nd: Node, k: nat)
    requires IsSquare(grid) && k < |nodes| && NodeOk(grid, goalRow, goalCol, nodes, k)
    ensures NodeOk(grid, goalRow, goalCol, nodes + [nd], k)
  {
    var more := nodes + [nd];
    assert more[k] == nodes[k];
    match nodes[k].parent {
      case None =>
      case Some(p) => assert more[p] == nodes[p];
    }
  }

  /** Appending a well-formed node keeps the arena well formed. */
  lemma ArenaAppend(grid: array2<char>, goalRow: int, goalCol: int, nodes: seq<Node>, nd: Node)
    requires ArenaOk(grid, goalRow, goalCol, nodes)
    requires NodeOk(grid, goalRow, goalCol, nodes + [nd], |nodes|)
    ensures ArenaOk(grid, goalRow, goalCol, nodes + [nd])
  {
    var more := nodes + [nd];
    forall k | 0 <= k < |more|
      ensures NodeOk(grid, goalRow, goalCol, more, k)
    {
      if k < |nodes| {
        NodeOkAppend(grid, goalRow, goalCol, nodes, nd, k);
      }
    }
    forall k | 0 <= k < |more| && more[k].parent.Some?
      ensures more[k].parent.value < k
    {
      assert NodeOk(grid, goalRow, goalCol, more, k);
    }
  }

  /** The target of move (i, j) out of node k is in the grid and not across a ridge. */
  predicate Accepted(grid: array2<char>, s: Store, k: nat, i: int, j: int)
    reads grid
    requires IsSquare(grid) && k < |s.nodes|
  {
    var p := s.nodes[k];
    InGrid(grid, p.row + i, p.col + j) &&
    !CheckRidge(grid, p.row, p.col, p.row + i, p.col + j, CheckDiagonal(i, j))
  }

  /** The node move (i, j) out of node k builds. */
  function Candidate(grid: array2<char>, goalRow: int, goalCol: int, nodes: seq<Node>, k: nat, i: int, j: int, id: nat): Node
    reads grid
    requires k < |nodes| && IsOffset(i, j)
    requires InGrid(grid, nodes[k].row + i, nodes[k].col + j)
  {
    var p := nodes[k];
    var x, y := p.row + i, p.col + j;
    NewNode(id, Label(i, j), p.cost + GetCost(CheckDiagonal(i, j)), Heuristic(goalRow, goalCol, x, y), Some(k), x, y, CheckGoal(grid, x, y))
  }

  /** The node built by an accepted move out of node k is a well-formed child of k. */
  lemma CandidateOk(grid: array2<char>, goalRow: int, goalCol: int, s: Store, k: nat, i: int, j: int, id: nat)
    requires IsSquare(grid) && k < |s.nodes| && IsOffset(i, j) && Accepted(grid, s, k, i, j)
    ensures NodeOk(grid, goalRow, goalCol, s.nodes + [Candidate(grid, goalRow, goalCol, s.nodes, k, i, j, id)], |s.nodes|)
  {
    var p := s.nodes[k];
    var more := s.nodes + [Candidate(grid, goalRow, goalCol, s.nodes, k, i, j, id)];
    assert more[k] == p;
    assert more[|s.nodes|].row - p.row == i && more[|s.nodes|].col - p.col == j;
  }

  /** The cell move (i, j) out of node k lands on. */
  function Target(s: Store, k: nat, i: int, j: int): Cell
    requires k < |s.nodes|
  {
    (s.nodes[k].row + i, s.nodes[k].col + j)
  }

  /** A move out of the grid, across a ridge, or onto a cell with a closed owner changes nothing. */
  lemma StepSkips(grid: array2<char>, goalRow: int, goalCol: int, closed: seq<nat>, s: Store, k: nat, i: int, j: int)
    requires IsSquare(grid) && Shaped(s, k) && IsOffset(i, j)
    requires !Accepted(grid, s, k, i, j) || (Target(s, k, i, j) in s.owner && s.owner[Target(s, k, i, j)] in closed)
    ensures Step(grid, goalRow, goalCol, closed, s, k, i, j) == s
  {
  }

  /** An accepted move onto an unclaimed cell claims it with a fresh node. */
  lemma StepClaims(grid: array2<char>, goalRow: int, goalCol: int, closed: seq<nat>, s: Store, k: nat, i: int, j: int)
    requires IsSquare(grid) && Shaped(s, k) && IsOffset(i, j)
    requires Accepted(grid, s, k, i, j) && Target(s, k, i, j) !in s.owner
    ensures Step(grid, goalRow, goalCol, closed, s, k, i, j) ==
      Claim(s, k, Candidate(grid, goalRow, goalCol, s.nodes, k, i, j, s.nodeCount))
  {
  }

  /** An accepted move onto a cell whose owner is open and dearer replaces the owner. */
  lemma StepReplaces(grid: array2<char>, goalRow: int, goalCol: int, closed: seq<nat>, s: Store, k: nat, i: int, j: int)
    requires IsSquare(grid) && Shaped(s, k) && IsOffset(i, j)
    requires Accepted(grid, s, k, i, j)
    requires var c := Target(s, k, i, j);
      c in s.owner && s.owner[c] !in closed &&
      s.nodes[k].cost + GetCost(CheckDiagonal(i, j)) < s.nodes[s.owner[c]].cost
    ensures var o := s.owner[Target(s, k, i, j)];
      Step(grid, goalRow, goalCol, closed, s, k, i, j) ==
      Replace(s, k, Candidate(grid, goalRow, goalCol, s.nodes, k, i, j, s.nodes[o].id))
  {
  }

  /** An accepted move onto a cell whose owner is open and no dearer only records the owner as a child. */
  lemma StepKeeps(grid: array2<char>, goalRow: int, goalCol: int, closed: seq<nat>, s: Store, k: nat, i: int, j: int)
    requires IsSquare(grid) && Shaped(s, k) && IsOffset(i, j)
    requires Accepted(grid, s, k, i, j)
    requires var c := Target(s, k, i, j);
      c in s.owner && s.owner[c] !in closed &&
      s.nodes[k].cost + GetCost(CheckDiagonal(i, j)) >= s.nodes[s.owner[c]].cost
    ensures Step(grid, goalRow, goalCol, closed, s, k, i, j) == AddChild(s, k, s.owner[Target(s, k, i, j)])
  {
  }

  lemma ClaimIds(s: Store, k: nat, nd: Node)
    requires IdsOk(s) && k < |s.children| && nd.id == s.nodeCount && CellOf(nd) !in s.owner
    ensures IdsOk(Claim(s, k, nd))
  {
    var r := Claim(s, k, nd);
    var m := |s.nodes|;
    assert r.nodes[m] == nd;
    forall k' | 0 <= k' < |r.nodes|
      ensures r.nodes[k'].id < |r.enqueued| && IdCell(r, r.nodes[k'].id) == CellOf(r.nodes[k'])
    {
      if k' < m {
        assert r.nodes[k'] == s.nodes[k'];
        assert IdCell(s, s.nodes[k'].id) == CellOf(s.nodes[k']);
        assert r.enqueued[s.nodes[k'].id] == s.enqueued[s.nodes[k'].id];
      }
    }
    forall t | 0 <= t < |r.enqueued|
      ensures r.enqueued[t] < |r.nodes| && r.nodes[r.enqueued[t]].id == t
    {
      if t < |s.enqueued| {
        assert r.enqueued[t] == s.enqueued[t];
      }
    }
  }

  lemma ClaimOwners(s: Store, k: nat, nd: Node)
    requires OwnersOk(s) && k < |s.children| && CellOf(nd) !in s.owner
    ensures OwnersOk(Claim(s, k, nd))
  {
    var r := Claim(s, k, nd);
    var m := |s.nodes|;
    assert r.nodes[m] == nd;
    forall c | c in r.owner
      ensures r.owner[c] < |r.nodes| && CellOf(r.nodes[r.owner[c]]) == c
    {
      if c != CellOf(nd) {
        assert r.nodes[s.owner[c]] == s.nodes[s.owner[c]];
      }
    }
    forall k' | 0 <= k' < |r.nodes|
      ensures CellOf(r.nodes[k']) in r.owner && OwnerId(r, CellOf(r.nodes[k'])) == r.nodes[k'].id
    {
      if k' < m {
        var c := CellOf(s.nodes[k']);
        assert r.nodes[k'] == s.nodes[k'];
        assert OwnerId(s, c) == s.nodes[k'].id;
        assert r.nodes[r.owner[c]] == s.nodes[s.owner[c]];
      }
    }
  }

  lemma ClaimRefs(s: Store, k: nat, nd: Node)
    requires RefsOk(s) && k < |s.children|
    ensures RefsOk(Claim(s, k, nd))
  {
    var r := Claim(s, k, nd);
    forall m | 0 <= m < |r.children|
      ensures forall t | 0 <= t < |r.children[m]| :: r.children[m][t] < |r.nodes|
    {
      if m != k && m < |s.children| {
        assert r.children[m] == s.children[m];
      }
    }
  }

  lemma ClaimGrows(closed: seq<nat>, s: Store, k: nat, nd: Node)
    requires k < |s.children| && CellOf(nd) !in s.owner && nd.parent == Some(k)
    ensures Grows(closed, k, s, Claim(s, k, nd))
  {
    var r := Claim(s, k, nd);
    var m := |s.nodes|;
    assert r.nodes[..m] == s.nodes;
    assert r.nodes[m] == nd;
    assert r.open[..|s.open|] == s.open;
    assert r.open[|s.open|..] == [m];
    assert |r.owner| == |s.owner| + 1;
  }

  /** Claiming an unclaimed cell with a fresh node keeps the invariant and is a growth step. */
  lemma ClaimOk(grid: array2<char>, goalRow: int, goalCol: int, closed: seq<nat>, s: Store, k: nat, nd: Node)
    requires StoreOk(grid, goalRow, goalCol, s) && k < |s.nodes|
    requires NodeOk(grid, goalRow, goalCol, s.nodes + [nd], |s.nodes|)
    requires nd.id == s.nodeCount && CellOf(nd) !in s.owner && nd.parent == Some(k)
    ensures StoreOk(grid, goalRow, goalCol, Claim(s, k, nd)) && Grows(closed, k, s, Claim(s, k, nd))
  {
    ArenaAppend(grid, goalRow, goalCol, s.nodes, nd);
    ClaimIds(s, k, nd);
    ClaimOwners(s, k, nd);
    ClaimRefs(s, k, nd);
    ClaimGrows(closed, s, k, nd);
  }

  lemma ReplaceIds(s: Store, k: nat, nd: Node)
    requires IdsOk(s) && OwnersOk(s) && k < |s.children|
    requires CellOf(nd) in s.owner && nd.id == s.nodes[s.owner[CellOf(nd)]].id
    ensures IdsOk(Replace(s, k, nd))
  {
    var r := Replace(s, k, nd);
    var m := |s.nodes|;
    var o := s.owner[CellOf(nd)];
    assert r.nodes[m] == nd;
    assert IdCell(s, s.nodes[o].id) == CellOf(s.nodes[o]);
    forall k' | 0 <= k' < |r.nodes|
      ensures r.nodes[k'].id < |r.enqueued| && IdCell(r, r.nodes[k'].id) == CellOf(r.nodes[k'])
    {
      if k' < m {
        assert r.nodes[k'] == s.nodes[k'];
        assert IdCell(s, s.nodes[k'].id) == CellOf(s.nodes[k']);
      } else {
        assert r.nodes[s.enqueued[nd.id]] == s.nodes[s.enqueued[nd.id]];
      }
    }
    forall t | 0 <= t < |r.enqueued|
      ensures r.enqueued[t] < |r.nodes| && r.nodes[r.enqueued[t]].id == t
    {
      assert r.nodes[r.enqueued[t]] == s.nodes[s.enqueued[t]];
    }
  }

  lemma ReplaceOwners(s: Store, k: nat, nd: Node)
    requires OwnersOk(s) && k < |s.children|
    requires CellOf(nd) in s.owner && nd.id == s.nodes[s.owner[CellOf(nd)]].id
    ensures OwnersOk(Replace(s, k, nd))
  {
    var r := Replace(s, k, nd);
    var m := |s.nodes|;
    assert r.nodes[m] == nd;
    forall c | c in r.owner
      ensures r.owner[c] < |r.nodes| && CellOf(r.nodes[r.owner[c]]) == c
    {
      if c != CellOf(nd) {
        assert r.nodes[s.owner[c]] == s.nodes[s.owner[c]];
      }
    }
    forall k' | 0 <= k' < |r.nodes|
      ensures CellOf(r.nodes[k']) in r.owner && OwnerId(r, CellOf(r.nodes[k'])) == r.nodes[k'].id
    {
      if k' < m {
        var c := CellOf(s.nodes[k']);
        assert r.nodes[k'] == s.nodes[k'];
        assert OwnerId(s, c) == s.nodes[k'].id;
        if c != CellOf(nd) {
          assert r.nodes[r.owner[c]] == s.nodes[s.owner[c]];
        }
      }
    }
  }

  lemma ReplaceRefs(s: Store, k: nat, nd: Node)
    requires RefsOk(s) && k < |s.children|
    ensures RefsOk(Replace(s, k, nd))
  {
    var r := Replace(s, k, nd);
    forall m | 0 <= m < |r.children|
      ensures forall t | 0 <= t < |r.children[m]| :: r.children[m][t] < |r.nodes|
    {
      if m != k && m < |s.children| {
        assert r.children[m] == s.children[m];
      }
    }
  }

  lemma ReplaceGrows(closed: seq<nat>, s: Store, k: nat, nd: Node)
    requires RefsOk(s) && OwnersOk(s) && k < |s.children| && nd.parent == Some(k)
    requires CellOf(nd) in s.owner && s.owner[CellOf(nd)] !in closed
    requires nd.cost < s.nodes[s.owner[CellOf(nd)]].cost
    ensures Grows(closed, k, s, Replace(s, k, nd))
  {
    var r := Replace(s, k, nd);
    var m := |s.nodes|;
    assert r.nodes[..m] == s.nodes;
    assert r.nodes[m] == nd;
    assert r.open[..|s.open|] == s.open;
    assert r.open[|s.open|..] == [];
    assert m !in r.open;
  }

  /** Replacing an owner that is not closed by a cheaper candidate keeps the invariant and is a growth step. */
  lemma ReplaceOk(grid: array2<char>, goalRow: int, goalCol: int, closed: seq<nat>, s: Store, k: nat, nd: Node)
    requires StoreOk(grid, goalRow, goalCol, s) && k < |s.nodes|
    requires NodeOk(grid, goalRow, goalCol, s.nodes + [nd], |s.nodes|)
    requires CellOf(nd) in s.owner && s.owner[CellOf(nd)] !in closed && nd.parent == Some(k)
    requires nd.id == s.nodes[s.owner[CellOf(nd)]].id && nd.cost < s.nodes[s.owner[CellOf(nd)]].cost
    ensures StoreOk(grid, goalRow, goalCol, Replace(s, k, nd)) && Grows(closed, k, s, Replace(s, k, nd))
  {
    ArenaAppend(grid, goalRow, goalCol, s.nodes, nd);
    ReplaceIds(s, k, nd);
    ReplaceOwners(s, k, nd);
    ReplaceRefs(s, k, nd);
    ReplaceGrows(closed, s, k, nd);
  }

  /** Adding the unchanged owner to node k's children keeps the invariant and is a growth step. */
  lemma AddChildOk(grid: array2<char>, goalRow: int, goalCol: int, closed: seq<nat>, s: Store, k: nat, o: nat)
    requires StoreOk(grid, goalRow, goalCol, s) && k < |s.nodes| && o < |s.nodes|
    ensures StoreOk(grid, goalRow, goalCol, AddChild(s, k, o)) && Grows(closed, k, s, AddChild(s, k, o))
  {
    var r := AddChild(s, k, o);
    forall m | 0 <= m < |r.children|
      ensures forall t | 0 <= t < |r.children[m]| :: r.children[m][t] < |r.nodes|
    {
      if m != k {
        assert r.children[m] == s.children[m];
      }
    }
    assert RefsOk(r);
    GrowsRefl(closed, k, s);
  }

  lemma GrowsRefl(closed: seq<nat>, k: nat, s: Store)
    ensures Grows(closed, k, s, s)
  {
    assert s.nodes[..|s.nodes|] == s.nodes && s.open[..|s.open|] == s.open;
    assert s.open[|s.open|..] == [];
  }

  /** An accepted move onto an unclaimed cell keeps the invariant. */
  lemma StepClaimOk(grid: array2<char>, goalRow: int, goalCol: int, closed: seq<nat>, s: Store, k: nat, i: int, j: int)
    requires StoreOk(grid, goalRow, goalCol, s) && Shaped(s, k) && IsOffset(i, j)
    requires Accepted(grid, s, k, i, j) && Target(s, k, i, j) !in s.owner
    ensures var r := Step(grid, goalRow, goalCol, closed, s, k, i, j);
      StoreOk(grid, goalRow, goalCol, r) && Grows(closed, k, s, r)
  {
    StepClaims(grid, goalRow, goalCol, closed, s, k, i, j);
    var nd := Candidate(grid, goalRow, goalCol, s.nodes, k, i, j, s.nodeCount);
    CandidateOk(grid, goalRow, goalCol, s, k, i, j, s.nodeCount);
    ClaimOk(grid, goalRow, goalCol, closed, s, k, nd);
  }

  /** An accepted move onto a cell whose owner is open and dearer keeps the invariant. */
  lemma StepReplaceOk(grid: array2<char>, goalRow: int, goalCol: int, closed: seq<nat>, s: Store, k: nat, i: int, j: int)
    requires StoreOk(grid, goalRow, goalCol, s) && Shaped(s, k) && IsOffset(i, j)
    requires Accepted(grid, s, k, i, j)
    requires var c := Target(s, k, i, j);
      c in s.owner && s.owner[c] !in closed &&
      s.nodes[k].cost + GetCost(CheckDiagonal(i, j)) < s.nodes[s.owner[c]].cost
    ensures var r := Step(grid, goalRow, goalCol, closed, s, k, i, j);
      StoreOk(grid, goalRow, goalCol, r) && Grows(closed, k, s, r)
  {
    StepReplaces(grid, goalRow, goalCol, closed, s, k, i, j);
    var c := Target(s, k, i, j);
    var nd := Candidate(grid, goalRow, goalCol, s.nodes, k, i, j, s.nodes[s.owner[c]].id);
    CandidateOk(grid, goalRow, goalCol, s, k, i, j, s.nodes[s.owner[c]].id);
    ReplaceOk(grid, goalRow, goalCol, closed, s, k, nd);
  }

  /** A move that changes nothing keeps the invariant. */
  lemma StepSameOk(grid: array2<char>, goalRow: int, goalCol: int, closed: seq<nat>, s: Store, k: nat, i: int, j: int)
    requires StoreOk(grid, goalRow, goalCol, s) && Shaped(s, k) && IsOffset(i, j)
    requires !Accepted(grid, s, k, i, j) || (Target(s, k, i, j) in s.owner && s.owner[Target(s, k, i, j)] in closed)
    ensures var r := Step(grid, goalRow, goalCol, closed, s, k, i, j);
      StoreOk(grid, goalRow, goalCol, r) && Grows(closed, k, s, r)
  {
    StepSkips(grid, goalRow, goalCol, closed, s, k, i, j);
    GrowsRefl(closed, k, s);
  }

  /** An accepted move onto a cell whose owner is open and no dearer keeps the invariant. */
  lemma StepKeepOk(grid: array2<char>, goalRow: int, goalCol: int, closed: seq<nat>, s: Store, k: nat, i: int, j: int)
    requires StoreOk(grid, goalRow, goalCol, s) && Shaped(s, k) && IsOffset(i, j)
    requires Accepted(grid, s, k, i, j)
    requires var c := Target(s, k, i, j);
      c in s.owner && s.owner[c] !in closed &&
      s.nodes[k].cost + GetCost(CheckDiagonal(i, j)) >= s.nodes[s.owner[c]].cost
    ensures var r := Step(grid, goalRow, goalCol, closed, s, k, i, j);
      StoreOk(grid, goalRow, goalCol, r) && Grows(closed, k, s, r)
  {
    StepKeeps(grid, goalRow, goalCol, closed, s, k, i, j);
    AddChildOk(grid, goalRow, goalCol, closed, s, k, s.owner[Target(s, k, i, j)]);
  }

  /** One round of expand keeps the invariant and is a growth step. */
  lemma StepOk(grid: array2<char>, goalRow: int, goalCol: int, closed: seq<nat>, s: Store, k: nat, i: int, j: int)
    requires StoreOk(grid, goalRow, goalCol, s) && k < |s.nodes| && IsOffset(i, j)
    ensures Shaped(s, k)
    ensures var r := Step(grid, goalRow, goalCol, closed, s, k, i, j);
      StoreOk(grid, goalRow, goalCol, r) && Grows(closed, k, s, r)
  {
    var c := Target(s, k, i, j);
    if !Accepted(grid, s, k, i, j) || (c in s.owner && s.owner[c] in closed) {
      StepSameOk(grid, goalRow, goalCol, closed, s, k, i, j);
    } else if c !in s.owner {
      StepClaimOk(grid, goalRow, goalCol, closed, s, k, i, j);
    } else if s.nodes[k].cost + GetCost(CheckDiagonal(i, j)) < s.nodes[s.owner[c]].cost {
      StepReplaceOk(grid, goalRow, goalCol, closed, s, k, i, j);
    } else {
      StepKeepOk(grid, goalRow, goalCol, closed, s, k, i, j);
    }
  }

  lemma ArenaGrowsTrans(k: nat, s1: Store, s2: Store, s3: Store)
    requires ArenaGrows(k, s1, s2) && ArenaGrows(k, s2, s3)
    ensures ArenaGrows(k, s1, s3)
  {
    assert s3.nodes[..|s1.nodes|] == s3.nodes[..|s2.nodes|][..|s1.nodes|];
    forall m | |s1.nodes| <= m < |s3.nodes|
      ensures s3.nodes[m].parent == Some(k)
    {
      if m < |s2.nodes| {
        assert s3.nodes[m] == s2.nodes[m];
      }
    }
  }

  /** Two prefix extensions, each logged onto a history, make one. */
  lemma PrefixTrans(a: seq<nat>, b: seq<nat>, c: seq<nat>, ea: seq<nat>, eb: seq<nat>, ec: seq<nat>)
    requires |a| <= |b| <= |c| && b[..|a|] == a && c[..|b|] == b
    requires eb == ea + b[|a|..] && ec == eb + c[|b|..]
    ensures c[..|a|] == a && ec == ea + c[|a|..]
  {
    assert c[..|a|] == c[..|b|][..|a|];
    assert c[|a|..] == b[|a|..] + c[|b|..];
  }

  /** A prefix of a prefix is a prefix. */
  lemma PrefixOfPrefix(a: seq<nat>, b: seq<nat>, c: seq<nat>)
    requires |a| <= |b| <= |c| && b[..|a|] == a && c[..|b|] == b
    ensures c[..|a|] == a
  {
    assert c[..|a|] == c[..|b|][..|a|];
  }

  lemma OpenGrowsTrans(s1: Store, s2: Store, s3: Store)
    requires |s1.nodes| <= |s2.nodes| <= |s3.nodes| && s3.nodes[..|s2.nodes|] == s2.nodes
    requires s1.owner.Keys <= s2.owner.Keys
    requires OpenGrows(s1, s2) && OpenGrows(s2, s3)
    ensures OpenGrows(s1, s3)
  {
    PrefixTrans(s1.open, s2.open, s3.open, s1.enqueued, s2.enqueued, s3.enqueued);
    forall t | |s1.open| <= t < |s3.open|
      ensures |s1.nodes| <= s3.open[t] < |s3.nodes| && CellOf(s3.nodes[s3.open[t]]) !in s1.owner
    {
      if t < |s2.open| {
        assert s3.open[t] == s2.open[t];
        assert s3.nodes[s2.open[t]] == s2.nodes[s2.open[t]];
      }
    }
  }

  lemma OwnersImproveTrans(closed: seq<nat>, k: nat, s1: Store, s2: Store, s3: Store)
    requires forall c | c in s1.owner :: s1.owner[c] < |s1.nodes|
    requires forall c | c in s2.owner :: s2.owner[c] < |s2.nodes|
    requires ArenaGrows(k, s1, s2) && ArenaGrows(k, s2, s3) && OpenGrows(s2, s3)
    requires OwnersImprove(closed, s1, s2) && OwnersImprove(closed, s2, s3)
    ensures OwnersImprove(closed, s1, s3)
  {
    forall c | c in s1.owner && s3.owner[c] != s1.owner[c]
      ensures s1.owner[c] < |s1.nodes| && s3.owner[c] < |s3.nodes|
      ensures s3.nodes[s3.owner[c]].cost < s1.nodes[s1.owner[c]].cost && s3.owner[c] !in s3.open
    {
      assert c in s2.owner;
      OwnerChangeTrans(closed, k, s1, s2, s3, c);
    }
  }

  lemma OwnerChangeTrans(closed: seq<nat>, k: nat, s1: Store, s2: Store, s3: Store, c: Cell)
    requires |s1.nodes| <= |s2.nodes| && s2.nodes[..|s1.nodes|] == s1.nodes
    requires |s2.nodes| <= |s3.nodes| && s3.nodes[..|s2.nodes|] == s2.nodes && OpenGrows(s2, s3)
    requires OwnersImprove(closed, s1, s2) && OwnersImprove(closed, s2, s3)
    requires c in s1.owner && s1.owner[c] < |s1.nodes| && s2.owner[c] < |s2.nodes|
    requires s3.owner[c] != s1.owner[c]
    ensures s1.owner[c] < |s1.nodes| && s3.owner[c] < |s3.nodes|
    ensures s3.nodes[s3.owner[c]].cost < s1.nodes[s1.owner[c]].cost && s3.owner[c] !in s3.open
  {
    var o1, o2, o3 := s1.owner[c], s2.owner[c], s3.owner[c];
    assert s2.nodes[o1] == s1.nodes[o1];
    assert s3.nodes[o2] == s2.nodes[o2];
    if o3 == o2 {
      assert o2 != o1;
      assert s2.nodes[o2].cost < s1.nodes[o1].cost && o2 !in s2.open;
      OwnerStaysOut(s2, s3, o2);
    } else if o2 == o1 {
      assert s3.nodes[o3].cost < s2.nodes[o2].cost;
    } else {
      assert s2.nodes[o2].cost < s1.nodes[o1].cost;
      assert s3.nodes[o3].cost < s2.nodes[o2].cost;
    }
  }

  /** A node of the older state that is not in `OPEN` stays out of it. */
  lemma OwnerStaysOut(s2: Store, s3: Store, o: nat)
    requires o < |s2.nodes| && o !in s2.open && OpenGrows(s2, s3)
    ensures o !in s3.open
  {
  }

  lemma GrowsTrans(grid: array2<char>, goalRow: int, goalCol: int, closed: seq<nat>, k: nat, s1: Store, s2: Store, s3: Store)
    requires StoreOk(grid, goalRow, goalCol, s1) && StoreOk(grid, goalRow, goalCol, s2)
    requires Grows(closed, k, s1, s2) && Grows(closed, k, s2, s3)
    ensures Grows(closed, k, s1, s3)
  {
    ArenaGrowsTrans(k, s1, s2, s3);
    OpenGrowsTrans(s1, s2, s3);
    OwnersImproveTrans(closed, k, s1, s2, s3);
  }

  /** The first `count` rounds keep the invariant and form a growth step. */
  lemma {:induction false} FoldOk(grid: array2<char>, goalRow: int, goalCol: int, closed: seq<nat>, s: Store, k: nat, count: nat)
    requires StoreOk(grid, goalRow, goalCol, s) && k < |s.nodes| && count <= 8
    ensures Shaped(s, k)
    ensures var r := Fold(grid, goalRow, goalCol, closed, s, k, count);
      StoreOk(grid, goalRow, goalCol, r) && Grows(closed, k, s, r)
  {
    if count == 0 {
      GrowsRefl(closed, k, s);
    } else {
      OffsetsValid();
      FoldOk(grid, goalRow, goalCol, closed, s, k, count - 1);
      var t := Fold(grid, goalRow, goalCol, closed, s, k, count - 1);
      StepOk(grid, goalRow, goalCol, closed, t, k, OFFSETS[count - 1].0, OFFSETS[count - 1].1);
      GrowsTrans(grid, goalRow, goalCol, closed, k, s, t, Fold(grid, goalRow, goalCol, closed, s, k, count));
    }
  }

  /**
   * Identifiers name cells: two arena nodes carry the same identifier
   * exactly when they sit on the same cell.
   */
  lemma IdsNameCells(grid: array2<char>, goalRow: int, goalCol: int, s: Store, k1: nat, k2: nat)
    requires StoreOk(grid, goalRow, goalCol, s) && k1 < |s.nodes| && k2 < |s.nodes|
    ensures s.nodes[k1].id == s.nodes[k2].id <==> CellOf(s.nodes[k1]) == CellOf(s.nodes[k2])
  {
    assert IdCell(s, s.nodes[k1].id) == CellOf(s.nodes[k1]);
    assert IdCell(s, s.nodes[k2].id) == CellOf(s.nodes[k2]);
    assert OwnerId(s, CellOf(s.nodes[k1])) == s.nodes[k1].id;
    assert OwnerId(s, CellOf(s.nodes[k2])) == s.nodes[k2].id;
  }

  /**
   * Each cell enters `OPEN` at most once: the nodes ever appended to it sit
   * on pairwise different cells.
   */
  lemma EnqueuedOnce(grid: array2<char>, goalRow: int, goalCol: int, s: Store, t1: nat, t2: nat)
    requires StoreOk(grid, goalRow, goalCol, s) && t1 < |s.enqueued| && t2 < |s.enqueued|
    ensures s.enqueued[t1] < |s.nodes| && s.enqueued[t2] < |s.nodes|
    ensures CellOf(s.nodes[s.enqueued[t1]]) == CellOf(s.nodes[s.enqueued[t2]]) ==> t1 == t2
  {
    IdsNameCells(grid, goalRow, goalCol, s, s.enqueued[t1], s.enqueued[t2]);
  }

  /** Every claimed cell lies in the grid. */
  lemma OwnedInGrid(grid: array2<char>, goalRow: int, goalCol: int, s: Store, c: Cell)
    requires StoreOk(grid, goalRow, goalCol, s) && c in s.owner
    ensures InGrid(grid, c.0, c.1)
  {
    assert NodeOk(grid, goalRow, goalCol, s.nodes, s.owner[c]);
  }

  /** Replacing `OPEN` by any list of arena indices keeps the invariant. */
  lemma WithOpen(grid: array2<char>, goalRow: int, goalCol: int, s: Store, open: seq<nat>)
    requires StoreOk(grid, goalRow, goalCol, s)
    requires forall t | 0 <= t < |open| :: open[t] < |s.nodes|
    ensures StoreOk(grid, goalRow, goalCol, s.(open := open))
  {
    var r := s.(open := open);
    assert forall k | 0 <= k < |s.nodes| :: IdCell(r, s.nodes[k].id) == IdCell(s, s.nodes[k].id);
    assert forall k | 0 <= k < |s.nodes| :: OwnerId(r, CellOf(s.nodes[k])) == OwnerId(s, CellOf(s.nodes[k]));
  }

  /**
   * A node's cost lies between one and two per move on its path: every
   * diagonal move costs 1 and every other move 2, from a start node of cost 0.
   */
  lemma {:induction false} CostWithinDepth(grid: array2<char>, goalRow: int, goalCol: int, nodes: seq<Node>, k: nat)
    requires ArenaOk(grid, goalRow, goalCol, nodes) && k < |nodes|
    ensures Depth(nodes, k) <= nodes[k].cost <= 2 * Depth(nodes, k)
    ensures nodes[k].f == nodes[k].cost + nodes[k].heuristic
    decreases k
  {
    assert NodeOk(grid, goalRow, goalCol, nodes, k);
    match nodes[k].parent
    case None =>
    case Some(p) =>
      CostWithinDepth(grid, goalRow, goalCol, nodes, p);
  }

  /**
   * The path down to node `k` is a route on the grid: it starts on an 'S'
   * cell with the label "S", and each further node is one accepted move from
   * the one before, labelled by that move.
   */
  ghost predicate RouteTo(grid: array2<char>, nodes: seq<Node>, k: nat)
    reads grid
    requires IsSquare(grid) && Acyclic(nodes) && k < |nodes|
  {
    var path := PathTo(nodes, k);
    var ops := OpsAlong(nodes, k);
    |ops| == |path| && path[|path| - 1] == k &&
    InGrid(grid, nodes[path[0]].row, nodes[path[0]].col) &&
    grid[nodes[path[0]].row, nodes[path[0]].col] == 'S' && ops[0] == "S" &&
    forall t | 0 <= t < |path| - 1 ::
      var a, b := CellOf(nodes[path[t]]), CellOf(nodes[path[t + 1]]);
      LegalMove(grid, a, b) && ops[t + 1] == Label(b.0 - a.0, b.1 - a.1)
  }

  /** Every node of a well-formed arena is reached by a route on the grid. */
  lemma Route(grid: array2<char>, goalRow: int, goalCol: int, nodes: seq<Node>, k: nat)
    requires ArenaOk(grid, goalRow, goalCol, nodes) && k < |nodes|
    ensures RouteTo(grid, nodes, k)
  {
    var path := PathTo(nodes, k);
    PathToShape(nodes, k);
    OpsAlongPath(nodes, k);
    assert NodeOk(grid, goalRow, goalCol, nodes, path[0]);
    forall t | 0 <= t < |path| - 1
      ensures var a, b := CellOf(nodes[path[t]]), CellOf(nodes[path[t + 1]]);
        LegalMove(grid, a, b) && OpsAlong(nodes, k)[t + 1] == Label(b.0 - a.0, b.1 - a.1)
    {
      assert NodeOk(grid, goalRow, goalCol, nodes, path[t + 1]);
    }
  }
}
