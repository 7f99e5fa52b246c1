/**
 * SearchGraph.add_map, stated on values.  add_map reads the map row by row
 * and cell by cell; `LoadStep` is what reading one cell does to the search
 * state, `Starts` and `GoalSeen` describe the state and GOAL_COORD after
 * every cell before (i, j) has been read.
 */
module Loading {
  import opened Wrappers
  import opened Nodes
  import opened Moves
  import opened Expansion

  /** Rows 1 .. size of `lines` exist and hold at least `size` characters. */
  predicate MapFits(lines: seq<string>, size: nat) {
    |lines| > size && forall r | 1 <= r <= size :: |lines[r]| >= size
  }

  /** Cell `a` comes strictly before cell `b` in row-major order. */
  predicate RowMajorBefore(a: Cell, b: Cell) {
    a.0 < b.0 || (a.0 == b.0 && a.1 < b.1)
  }

  /** The start node add_map builds for an 'S' at row x, column y. */
  function StartNode(id: nat, x: int, y: int): Node {
    NewNode(id, "S", 0, 0, None, x, y, false)
  }

  /** Cell (x, y) is in the grid and comes before (i, j) in row-major order. */
  predicate Seen(size: nat, x: int, y: int, i: int, j: int) {
    0 <= x < size && 0 <= y < size && RowMajorBefore((x, y), (i, j))
  }

  /**
   * One cell of add_map: a start node for an 'S' gets the next identifier,
   * becomes the cell's owner and is appended to OPEN.
   */
  function LoadStep(lines: seq<string>, size: nat, s: Store, i: nat, j: nat): Store
    requires MapFits(lines, size) && i < size && j < size
  {
    if lines[i + 1][j] == 'S' then AddStart(s, i, j) else s
  }

  /** A start node for cell (i, j), with the next identifier, owning the cell and appended to OPEN. */
  function AddStart(s: Store, i: nat, j: nat): Store {
    var m := |s.nodes|;
    s.(nodes := s.nodes + [StartNode(s.nodeCount, i, j)], children := s.children + [[]],
       open := s.open + [m], owner := s.owner[(i, j) := m],
       nodeCount := s.nodeCount + 1, enqueued := s.enqueued + [m])
  }

  /** Exactly the 'S' cells read so far are claimed. */
  ghost predicate StartCells(lines: seq<string>, size: nat, s: Store, i: int, j: int)
    requires MapFits(lines, size)
  {
    forall x, y | Seen(size, x, y, i, j) :: lines[x + 1][y] == 'S' <==> (x, y) in s.owner
  }

  /** Every node is a start node on a cell read so far, owning it, with identifier and OPEN position its index. */
  ghost predicate StartNodes(size: nat, s: Store, i: int, j: int) {
    |s.nodes| == |s.open| == |s.children| == s.nodeCount == |s.enqueued| == |s.owner| &&
    forall t | 0 <= t < |s.nodes| ::
      s.nodes[t] == StartNode(t, s.nodes[t].row, s.nodes[t].col) &&
      Seen(size, s.nodes[t].row, s.nodes[t].col, i, j) &&
      CellOf(s.nodes[t]) in s.owner && s.owner[CellOf(s.nodes[t])] == t &&
      s.open[t] == t && s.enqueued[t] == t && s.children[t] == []
  }

  /** The start nodes are in row-major order of their cells. */
  ghost predicate StartOrder(s: Store) {
    forall t1, t2 | 0 <= t1 < t2 < |s.nodes| :: RowMajorBefore(CellOf(s.nodes[t1]), CellOf(s.nodes[t2]))
  }

  /**
   * The store after add_map has read every cell before (i, j): one start
   * node per 'S' read, in row-major order, each the owner of its cell,
   * with identifier and OPEN position equal to its arena index.
   */
  ghost predicate Starts(lines: seq<string>, size: nat, s: Store, i: int, j: int)
    requires MapFits(lines, size)
  {
    StartCells(lines, size, s, i, j) && StartNodes(size, s, i, j) && StartOrder(s) && OwnersOnCells(s)
  }

  /** `grid` is size x size and holds the map's characters at every cell read so far. */
  ghost predicate Copied(lines: seq<string>, size: nat, grid: array2<char>, i: int, j: int)
    reads grid
    requires MapFits(lines, size)
  {
    grid.Length0 == size && grid.Length1 == size &&
    forall x, y | Seen(size, x, y, i, j) :: grid[x, y] == lines[x + 1][y]
  }

  /** The cells read before (i, size) are those read before (i + 1, 0). */
  lemma CopiedRow(lines: seq<string>, size: nat, grid: array2<char>, i: nat)
    requires MapFits(lines, size) && i < size && Copied(lines, size, grid, i, size)
    ensures Copied(lines, size, grid, i + 1, 0)
  {
    forall x, y | Seen(size, x, y, i + 1, 0)
      ensures grid[x, y] == lines[x + 1][y]
    {
      assert Seen(size, x, y, i, size);
    }
  }

  /** After the last row every cell of the grid holds the map's character. */
  lemma CopiedAll(lines: seq<string>, size: nat, grid: array2<char>)
    requires MapFits(lines, size) && Copied(lines, size, grid, size, 0)
    ensures forall x, y | 0 <= x < size && 0 <= y < size :: grid[x, y] == lines[x + 1][y]
  {
    forall x, y | 0 <= x < size && 0 <= y < size
      ensures grid[x, y] == lines[x + 1][y]
    {
      assert Seen(size, x, y, size, 0);
    }
  }

  /** Reading cell (i, j) adds exactly that cell to those read. */
  lemma SeenNext(size: nat, i: int, j: int)
    requires 0 <= i < size && 0 <= j < size
    ensures forall x, y :: Seen(size, x, y, i, j + 1) <==> Seen(size, x, y, i, j) || (x == i && y == j)
    ensures forall x, y :: Seen(size, x, y, i, size) <==> Seen(size, x, y, i + 1, 0)
  {
    var next := j + 1;
    forall x, y
      ensures Seen(size, x, y, i, next) <==> Seen(size, x, y, i, j) || (x == i && y == j)
    {
      assert RowMajorBefore((x, y), (i, next)) <==> RowMajorBefore((x, y), (i, j)) || (x == i && y == j);
    }
  }

  /**
   * `GOAL_COORD` after add_map has read every cell before (i, j): (0, 0)
   * while no 'G' has been read, and otherwise one past the row, and the
   * column, of the last 'G' read.
   */
  ghost predicate GoalSeen(lines: seq<string>, size: nat, goalRow: int, goalCol: int, i: int, j: int)
    requires MapFits(lines, size)
  {
    ((forall x, y | Seen(size, x, y, i, j) :: lines[x + 1][y] != 'G') && goalRow == 0 && goalCol == 0) ||
    (Seen(size, goalRow - 1, goalCol, i, j) && lines[goalRow][goalCol] == 'G' &&
     forall x, y | Seen(size, x, y, i, j) && RowMajorBefore((goalRow - 1, goalCol), (x, y)) :: lines[x + 1][y] != 'G')
  }

  lemma StartsFirst(lines: seq<string>, size: nat)
    requires MapFits(lines, size)
    ensures Starts(lines, size, Store([], [], [], map[], 0, []), 0, 0)
    ensures GoalSeen(lines, size, 0, 0, 0, 0)
  {
  }

  /** Reading a cell that is not 'S' keeps `Starts`. */
  lemma StartsSkip(lines: seq<string>, size: nat, s: Store, i: nat, j: nat)
    requires MapFits(lines, size) && i < size && j < size && Starts(lines, size, s, i, j)
    requires lines[i + 1][j] != 'S'
    ensures Starts(lines, size, s, i, j + 1)
  {
    SeenNext(size, i, j);
  }

  /** Reading an 'S' cell appends its start node and keeps `Starts`. */
  lemma StartsAdd(lines: seq<string>, size: nat, s: Store, i: nat, j: nat)
    requires MapFits(lines, size) && i < size && j < size && Starts(lines, size, s, i, j)
    requires lines[i + 1][j] == 'S'
    ensures (i, j) !in s.owner
    ensures Starts(lines, size, LoadStep(lines, size, s, i, j), i, j + 1)
  {
    StartCellsAdd(lines, size, s, i, j);
    StartNodesAdd(size, s, i, j);
    StartOrderAdd(size, s, i, j);
    StartOwnersAdd(s, i, j);
  }

  lemma StartCellsAdd(lines: seq<string>, size: nat, s: Store, i: nat, j: nat)
    requires MapFits(lines, size) && i < size && j < size && StartCells(lines, size, s, i, j)
    requires lines[i + 1][j] == 'S'
    ensures StartCells(lines, size, AddStart(s, i, j), i, j + 1)
  {
    SeenNext(size, i, j);
  }

  lemma StartNodesAdd(size: nat, s: Store, i: nat, j: nat)
    requires i < size && j < size && StartNodes(size, s, i, j) && (i, j) !in s.owner
    ensures StartNodes(size, AddStart(s, i, j), i, j + 1)
  {
    SeenNext(size, i, j);
    var r := AddStart(s, i, j);
    var m := |s.nodes|;
    assert r.nodes[m] == StartNode(m, i, j);
    forall t | 0 <= t < |r.nodes|
      ensures r.nodes[t] == StartNode(t, r.nodes[t].row, r.nodes[t].col)
      ensures Seen(size, r.nodes[t].row, r.nodes[t].col, i, j + 1)
      ensures CellOf(r.nodes[t]) in r.owner && r.owner[CellOf(r.nodes[t])] == t
      ensures r.open[t] == t && r.enqueued[t] == t && r.children[t] == []
    {
      if t < m {
        assert r.nodes[t] == s.nodes[t];
      }
    }
  }

  lemma StartOrderAdd(size: nat, s: Store, i: nat, j: nat)
    requires StartNodes(size, s, i, j) && StartOrder(s)
    ensures StartOrder(AddStart(s, i, j))
  {
    var r := AddStart(s, i, j);
    var m := |s.nodes|;
    forall t1, t2 | 0 <= t1 < t2 < |r.nodes|
      ensures RowMajorBefore(CellOf(r.nodes[t1]), CellOf(r.nodes[t2]))
    {
      assert r.nodes[t1] == s.nodes[t1];
      if t2 < m {
        assert r.nodes[t2] == s.nodes[t2];
      }
    }
  }

  lemma StartOwnersAdd(s: Store, i: nat, j: nat)
    requires OwnersOnCells(s) && (i, j) !in s.owner
    ensures OwnersOnCells(AddStart(s, i, j))
  {
    var r := AddStart(s, i, j);
    forall c | c in r.owner
      ensures r.owner[c] < |r.nodes| && CellOf(r.nodes[r.owner[c]]) == c
    {
      if c != (i, j) {
        assert r.nodes[s.owner[c]] == s.nodes[s.owner[c]];
      }
    }
  }

  /** Reading one more cell keeps `Starts`. */
  lemma StartsStep(lines: seq<string>, size: nat, s: Store, i: nat, j: nat)
    requires MapFits(lines, size) && i < size && j < size && Starts(lines, size, s, i, j)
    ensures (i, j) !in s.owner
    ensures Starts(lines, size, LoadStep(lines, size, s, i, j), i, j + 1)
  {
    if lines[i + 1][j] == 'S' {
      StartsAdd(lines, size, s, i, j);
    } else {
      StartsSkip(lines, size, s, i, j);
    }
  }

  /** Reading one more cell keeps `GoalSeen`, with GOAL_COORD set on a 'G'. */
  lemma GoalStep(lines: seq<string>, size: nat, goalRow: int, goalCol: int, i: nat, j: nat, newRow: int, newCol: int)
    requires MapFits(lines, size) && i < size && j < size && GoalSeen(lines, size, goalRow, goalCol, i, j)
    requires (newRow, newCol) == if lines[i + 1][j] == 'G' then (i + 1, j) else (goalRow, goalCol)
    ensures GoalSeen(lines, size, newRow, newCol, i, j + 1)
  {
    SeenNext(size, i, j);
    if lines[i + 1][j] == 'G' {
      assert Seen(size, i, j, i, j + 1);
    } else if goalRow == 0 && goalCol == 0 && forall x, y | Seen(size, x, y, i, j) :: lines[x + 1][y] != 'G' {
      var next := j + 1;
      forall x, y | Seen(size, x, y, i, next)
        ensures lines[x + 1][y] != 'G'
      {
        if !(x == i && y == j) {
          assert Seen(size, x, y, i, j);
        }
      }
    } else {
      assert Seen(size, goalRow - 1, goalCol, i, j + 1);
      forall x, y | Seen(size, x, y, i, j + 1) && RowMajorBefore((goalRow - 1, goalCol), (x, y))
        ensures lines[x + 1][y] != 'G'
      {
        if !(x == i && y == j) {
          assert Seen(size, x, y, i, j);
        }
      }
    }
  }

  /** The end of a row is the start of the next. */
  lemma RowDone(lines: seq<string>, size: nat, s: Store, goalRow: int, goalCol: int, i: nat)
    requires MapFits(lines, size) && i < size
    requires Starts(lines, size, s, i, size) && GoalSeen(lines, size, goalRow, goalCol, i, size)
    ensures Starts(lines, size, s, i + 1, 0) && GoalSeen(lines, size, goalRow, goalCol, i + 1, 0)
  {
    SeenNext(size, i, 0);
    forall x, y | Seen(size, x, y, i + 1, 0)
      ensures Seen(size, x, y, i, size)
    {
    }
    forall t | 0 <= t < |s.nodes|
      ensures Seen(size, s.nodes[t].row, s.nodes[t].col, i + 1, 0)
    {
      assert Seen(size, s.nodes[t].row, s.nodes[t].col, i, size);
    }
    assert StartCells(lines, size, s, i + 1, 0);
    assert StartNodes(size, s, i + 1, 0);
    if goalRow == 0 && goalCol == 0 && forall x, y | Seen(size, x, y, i, size) :: lines[x + 1][y] != 'G' {
      var next := i + 1;
      forall x, y | Seen(size, x, y, next, 0)
        ensures lines[x + 1][y] != 'G'
      {
        assert Seen(size, x, y, i, size);
      }
    } else {
      assert Seen(size, goalRow - 1, goalCol, i + 1, 0);
      forall x, y | Seen(size, x, y, i + 1, 0) && RowMajorBefore((goalRow - 1, goalCol), (x, y))
        ensures lines[x + 1][y] != 'G'
      {
        assert Seen(size, x, y, i, size);
      }
    }
  }

  /** Start nodes have no parent. */
  lemma StartsAreRoots(lines: seq<string>, size: nat, s: Store, i: int, j: int)
    requires MapFits(lines, size) && Starts(lines, size, s, i, j)
    ensures forall m | 0 <= m < |s.nodes| :: s.nodes[m].parent == None
  {
    forall m | 0 <= m < |s.nodes|
      ensures s.nodes[m].parent == None
    {
      assert s.nodes[m] == StartNode(m, s.nodes[m].row, s.nodes[m].col);
    }
  }

  /** Once every cell is read, the start nodes satisfy Expansion's invariant on the copied grid. */
  lemma StartsOk(lines: seq<string>, grid: array2<char>, goalRow: int, goalCol: int, s: Store)
    requires MapFits(lines, grid.Length0) && IsSquare(grid)
    requires Starts(lines, grid.Length0, s, grid.Length0, 0)
    requires forall x, y | 0 <= x < grid.Length0 && 0 <= y < grid.Length0 :: grid[x, y] == lines[x + 1][y]
    ensures StoreOk(grid, goalRow, goalCol, s)
  {
    var size := grid.Length0;
    forall k | 0 <= k < |s.nodes|
      ensures NodeOk(grid, goalRow, goalCol, s.nodes, k)
    {
      var c := CellOf(s.nodes[k]);
      assert Seen(size, c.0, c.1, size, 0);
      assert c in s.owner;
      assert lines[c.0 + 1][c.1] == 'S';
    }
    assert ArenaOk(grid, goalRow, goalCol, s.nodes);
    assert forall k | 0 <= k < |s.nodes| :: IdCell(s, s.nodes[k].id) == CellOf(s.nodes[k]);
    assert IdsOk(s);
    assert forall k | 0 <= k < |s.nodes| :: OwnerId(s, CellOf(s.nodes[k])) == s.nodes[k].id;
    assert OwnersOk(s);
  }
}
