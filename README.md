# planpath search engine, in Dafny

A model of the route planner in `planpath.py`: a square character map with a
start cell `S`, a goal cell `G` and blocked cells `X`, searched over the eight
neighbour moves, either depth-limited (`D`, OPEN used as a stack, nodes deeper
than a bound skipped) or best-first by `f = cost + heuristic` (`A`, OPEN
re-sorted after every expansion). The answer is the chain of move labels from
a start node to the first goal node closed, such as `S-R-RD-G`, or `NO-PATH`.

Modules, following the program's structure:

- `wrappers.dfy` (`Wrappers`): `Option` and `Result`.
- `nodes.dfy` (`Nodes`): the datatype `Node` (Python class `Node`). Nodes live in an arena `seq<Node>`
  whose `parent` field is the index of an earlier entry, so the identity
  comparisons of the program (`in CLOSED`, `is not None`) become index
  equality. `__len__` and `get_operators_to_root` are methods with the
  program's loops, proved against `Depth` and `OperatorsString`.
- `moves.dfy` (`Moves`): the read-only move rules — `ACTIONS`, `check_diagonal`,
  `get_cost`, `check_ridge`, `check_goal`, `heuristic` — as functions, with
  the ridge test reduced to the two cells a diagonal move cuts across.
- `expansion.dfy` (`Expansion`): `expand` stated on values. A `Store` holds
  the arena, the children lists, OPEN, the owner table NODEMAP (cell to
  arena index), `node_count` and the history of every index ever appended to
  OPEN. `Step` is one round of expand's inner loop, `Fold` the rounds in
  order; `StoreOk` is the invariant every reachable state keeps and `Grows`
  relates a state to any later one.
- `sorting.dfy` (`Sorting`): `order` — Python's stable sort with
  `reverse=True` — as stable insertion by a key.
- `loading.dfy` (`Loading`): `add_map` stated on values, cell by cell.
- `search_spec.dfy` (`SearchSpec`): search's loop stated on values: the key `f`,
  the bound on claimed cells, `VisitSpec` (the store after one node is closed,
  expanded and, in 'A' mode, OPEN sorted), `Progress` (what the loop has done
  so far), `Solved` (how it ended at a goal) and `Popped` (CLOSED is the nodes
  popped from OPEN that passed the depth check, in pop order). A `Phase` is
  what one pass of the loop reads and writes (the store, CLOSED and
  expansion_count); `Pass` is one pass from a phase, `Passes` a sequence of
  phases each leading to the next by a pass that reaches no goal, and `Runs`
  a whole run, ending with OPEN empty or with the pass that reaches a goal.
  `SearchOutcome` reads the end of a run against the nodes it popped.
- `search.dfy` (`Search`): class `SearchGraph` with `MAP` as an
  `array2<char>`, `NODEMAP` as an `array2<Option<nat>>`, OPEN and CLOSED as
  `seq<nat>` fields, and methods for `__init__`, `add_map`, `expand`, `order`
  and `search`, each proved against the functions above. search's loop is
  `Sweep`, one pass of it with its history `Turn`, and `Looping` what holds
  before each pass; `GraphSearch` is `graphsearch`.

Modelling notes:

- `GOAL_COORD[0]` holds the goal's row plus one (planpath.py:105), so the
  heuristic measures the distance to the cell below the goal; the goal test
  reads the map's `G` instead.
- An unknown procedure name does not stop the search: graphsearch runs with
  the default options, depth-limited with bound 10.
- A map fails only when a row is missing or shorter than the size
  (`IndexError` in add_map); a map without `S` gives `NO-PATH`, one without
  `G` never finds a goal, and longer rows are accepted.
- The result is the operator string alone; no total cost is returned.
- search pops a node and then tests its depth; the model reads the depth of
  OPEN's last entry first and then pops it, which is the same node.

## Model

| member | source | states |
|---|---|---|
| `Nodes.NewNode` | planpath.py:18-28 | a new node holds the given fields and has f = cost + heuristic |
| `Nodes.Len` | planpath.py:49-55 | `__len__` returns the number of parent links from the node to its root, one less than the number of nodes on its path |
| `Nodes.OperatorsToRoot` | planpath.py:30-43 | get_operators_to_root returns the labels on the root-to-node path joined with "-", followed by one "-G" for every goal-flagged node on the path |
| `Nodes.PrependStep` | planpath.py:35-41 | one pass of get_operators_to_root's loop extends the string built so far by the next label toward the root, with "-" after it unless it is the first, and by "-G" when that node is a goal |
| `Nodes.PathToShape` | planpath.py:49-55 | the path to a node is its parent chain: it starts at a node without parent, each entry is the parent of the next, it ends at the node, and it has depth + 1 entries |
| `Nodes.OpsAlongPath` | planpath.py:30-43 | the labels in the operator string are the operators of the path's nodes, in path order |
| `Nodes.GoalMarkOnlyAtEnd` | planpath.py:30-43 | when no strict ancestor is a goal, the operator string ends in "-G" exactly when the node's goal flag is set, and carries no other "-G" |
| `Nodes.ArenaGrowth` | planpath.py:25 | a node's parent never changes, so adding nodes leaves every existing node's depth, path, labels and goal count unchanged |
| `Moves.CheckDiagonal` | planpath.py:159-161 | check_diagonal holds exactly when both offsets are ±1 |
| `Moves.GetCost` | planpath.py:163-167 | get_cost is 1 for a diagonal move and 2 otherwise |
| `Moves.CheckRidge` | planpath.py:169-180 | check_ridge rejects every move onto an 'X' cell and a straight move only then; any move it rejects has an 'X' on the target or on one of the target's four in-grid neighbours |
| `Moves.CheckGoal` | planpath.py:182-185 | check_goal holds exactly on a 'G' cell |
| `Moves.Heuristic` | planpath.py:187-191 | the heuristic is the larger of the row and column distances to GOAL_COORD, and 0 exactly at GOAL_COORD |
| `Moves.RidgeBridges` | planpath.py:169-180 | for a move out of an in-grid cell, check_ridge rejects exactly when the target is 'X' or, for a diagonal move (i, j) from (cx, cy), when (cx, cy + j) or (cx + i, cy) is 'X' |
| `Moves.DiagonalMoves` | planpath.py:159-167 | among the eight offsets, check_diagonal holds exactly for those changing both coordinates, which cost 1; the others cost 2 |
| `Moves.OffsetsValid` | planpath.py:109-111 | the offsets expand visits are eight neighbour offsets, none of them (0, 0) |
| `Moves.OffsetsCover` | planpath.py:109-111 | every neighbour offset is visited by expand's two loops, and nothing else is |
| `Moves.OffsetsRowMajor` | planpath.py:109-110 | expand visits the offsets in row-major order |
| `Moves.OffsetLabels` | planpath.py:76 | the moves, in the order expand tries them, are labelled LU, U, RU, L, R, LD, D, RD |
| `Moves.HeuristicOffByOne` | planpath.py:187-191 | with GOAL_COORD[0] one past the goal's row, the heuristic is 1 at the goal, zero nowhere on the goal's row, and within 1 of the distance to the goal itself |
| `Moves.HeuristicConsistent` | planpath.py:187-191 | along any neighbour move the heuristic changes by at most 1, never more than the move costs, so f never decreases along an accepted move |
| `Expansion.Step` | planpath.py:111-155 | one round of expand keeps the arena, children lists and owner table aligned and only appends to the arena |
| `Expansion.Fold` | planpath.py:109-155 | any number of expand's rounds only appends to the arena |
| `Expansion.RoundOf` | planpath.py:109-111 | the round counted for offset (i, j) is the one that uses (i, j) |
| `Expansion.FoldRound` | planpath.py:109-111 | the rounds up to offset (i, j) are those before it followed by the round for (i, j) |
| `Expansion.CandidateOk` | planpath.py:112-149 | the node an accepted move builds has f = cost + heuristic, is a child of the expanded node one legal move away, carries the move's ACTIONS label, costs the parent's cost plus 1 (diagonal) or 2, has the heuristic of its cell and is a goal exactly on a 'G' cell |
| `Expansion.StepSkips` | planpath.py:116-121 | a target outside the grid, across a ridge, or whose owner is closed changes neither NODEMAP, OPEN, node_count nor the children lists |
| `Expansion.StepClaims` | planpath.py:138-155 | an accepted move onto an unclaimed cell builds a node with identifier node_count, makes it the cell's owner, appends it to OPEN and to the expanded node's children, and bumps node_count |
| `Expansion.StepReplaces` | planpath.py:122-155 | an accepted move onto a cell whose open owner costs strictly more stores a candidate with the owner's identifier, makes it the owner without appending it to OPEN, and appends it to the children |
| `Expansion.StepKeeps` | planpath.py:122-155 | an accepted move onto a cell whose open owner costs no more leaves the owner and OPEN alone and appends the owner to the children |
| `Expansion.ClaimOk` | planpath.py:139-155 | claiming an unclaimed cell with a fresh node keeps the state invariant and is a growth step |
| `Expansion.ReplaceOk` | planpath.py:124-136 | replacing an open owner by a strictly cheaper candidate keeps the state invariant and is a growth step |
| `Expansion.AddChildOk` | planpath.py:155 | appending the cell's owner to the children keeps the state invariant and is a growth step |
| `Expansion.StepClaimOk` | planpath.py:138-155 | the claiming round keeps the invariant and is a growth step |
| `Expansion.StepReplaceOk` | planpath.py:122-155 | the replacing round keeps the invariant and is a growth step |
| `Expansion.StepSameOk` | planpath.py:116-121 | a round that changes nothing keeps the invariant and is a growth step |
| `Expansion.StepKeepOk` | planpath.py:122-155 | the round that keeps the owner keeps the invariant and is a growth step |
| `Expansion.StepOk` | planpath.py:111-155 | every round of expand keeps the invariant and is a growth step: OPEN only grows, by fresh nodes of cells that were unclaimed; claimed cells stay claimed; a closed owner stays; any other owner changes only to a strictly cheaper node that is not in OPEN |
| `Expansion.GrowsTrans` | planpath.py:109-155 | growth steps compose, so the whole of expand is one growth step |
| `Expansion.FoldOk` | planpath.py:108-155 | expand's rounds, in order, keep the invariant and together form a growth step |
| `Expansion.IdsNameCells` | planpath.py:121-153 | two nodes carry the same identifier exactly when they sit on the same cell |
| `Expansion.EnqueuedOnce` | planpath.py:121-153 | the nodes ever appended to OPEN sit on pairwise different cells: each cell enters OPEN at most once |
| `Expansion.OwnedInGrid` | planpath.py:116-153 | every claimed cell of NODEMAP lies in the grid |
| `Expansion.CostWithinDepth` | planpath.py:119-127 | every node has f = cost + heuristic and a cost between its depth and twice its depth |
| `Expansion.Route` | planpath.py:108-155 | the path to any node is a route on the map: it starts on an 'S' cell labelled "S", and each further node is one legal move from the one before, labelled by that move |
| `Sorting.InsertStable` | planpath.py:193-194 | inserting an element keeps the order among elements of equal key and puts it after all of them |
| `Sorting.SortDescCorrect` | planpath.py:193-194 | order's result is non-increasing in f, a permutation of OPEN, and keeps the relative order of nodes of equal f |
| `Sorting.PopIsMinimum` | planpath.py:193-201 | after order, pop takes a node of least f |
| `Loading.CopiedAll` | planpath.py:96-98 | after add_map every cell of MAP holds the map's character one row further down |
| `Loading.StartsFirst` | planpath.py:74-82 | before add_map reads a cell, no node exists, OPEN is empty and GOAL_COORD is (0, 0) |
| `Loading.StartsSkip` | planpath.py:96-99 | reading a cell that is not 'S' builds no node |
| `Loading.StartsAdd` | planpath.py:99-103 | reading an 'S' cell builds a start node with the next identifier on that cell, which owns the cell and is appended to OPEN |
| `Loading.StartsStep` | planpath.py:96-103 | after every cell read, the nodes are exactly one start node per 'S' read, in row-major order, each owning its cell, with identifier and OPEN position equal to its index |
| `Loading.GoalStep` | planpath.py:104-106 | after every cell read, GOAL_COORD is one past the row, and the column, of the last 'G' read, or (0, 0) if none |
| `Loading.RowDone` | planpath.py:96-97 | the end of one row of add_map is the start of the next |
| `Loading.StartsAreRoots` | planpath.py:100 | start nodes have no parent |
| `Loading.StartsOk` | planpath.py:95-106 | after add_map the start nodes keep the state invariant: cost 0, heuristic 0, on 'S' cells, each owning its cell |
| `SearchSpec.ClaimedBound` | planpath.py:116-153 | at most size * size cells are ever claimed |
| `SearchSpec.ExpandParents` | planpath.py:208-210 | every node with a parent was built by expanding that parent, which is in CLOSED |
| `SearchSpec.ProgressStep` | planpath.py:199-226 | closing and expanding a popped node keeps everything known about earlier nodes; the node joins the closed non-goals, within the bound in 'D' mode, unless it is a goal, in which case the search has ended with its operator string |
| `SearchSpec.SolutionString` | planpath.py:206-226 | the string returned for the first goal closed is its path's labels joined with "-" and a single "-G" |
| `SearchSpec.GoalRoute` | planpath.py:206-226 | a goal found by a search begun with nothing closed is reached by a route from an 'S' cell to a 'G' cell, its string is that route's labels and one "-G", and in 'D' mode the route has at most bound moves |
| `SearchSpec.SortedOk` | planpath.py:193-194 | sorting OPEN keeps the state invariant |
| `Search.SearchGraph.constructor` | planpath.py:73-93 | a fresh graph has an all-'0' MAP, an empty NODEMAP, empty OPEN and CLOSED, node_count 0, expansion_count 1, GOAL_COORD (0, 0), and algorithm D with bound 10 |
| `Search.SearchGraph.AddMap` | planpath.py:95-106 | add_map copies the map into MAP, builds one start node per 'S' in row-major order, registers it in NODEMAP and OPEN, sets GOAL_COORD from the last 'G', and leaves the invariant holding |
| `Search.SearchGraph.LoadRow` | planpath.py:97-106 | one row of add_map extends the copied cells, start nodes and GOAL_COORD by that row |
| `Search.SearchGraph.LoadCell` | planpath.py:98-106 | one cell of add_map copies the character, adds a start node for an 'S' and records a 'G' in GOAL_COORD |
| `Search.SearchGraph.PlaceStart` | planpath.py:100-103 | the start node is built with the next identifier, registered in NODEMAP, appended to OPEN, and node_count goes up |
| `Search.SearchGraph.Relax` | planpath.py:111-155 | the body of expand's inner loop does exactly one round of `Expansion.Step` |
| `Search.SearchGraph.Reach` | planpath.py:119-155 | an accepted move claims an unclaimed cell or contests its owner, as `Expansion.Step` says |
| `Search.SearchGraph.Contest` | planpath.py:121-155 | on a claimed cell: a closed owner is left alone, a strictly cheaper candidate replaces an open owner, and the owner is recorded as a child |
| `Search.SearchGraph.ReplaceOwner` | planpath.py:124-136 | the candidate is stored and becomes the cell's owner in NODEMAP, and OPEN is untouched |
| `Search.SearchGraph.ClaimTarget` | planpath.py:139-155 | the fresh node is stored, becomes the owner, is appended to OPEN and the children, and node_count goes up |
| `Search.SearchGraph.Expand` | planpath.py:108-155 | expand does the eight rounds of `Expansion.Step` in row-major offset order, keeps the invariant and is a growth step |
| `Search.SearchGraph.ExpandRow` | planpath.py:110-155 | one pass of expand's outer loop does the rounds for that row of offsets |
| `Search.SearchGraph.SetOptions` | planpath.py:293-302 | "D" selects depth-limited search with bound 300, "A" best-first search, and any other name keeps the options as they are; the store, GOAL_COORD and expansion_count are unchanged |
| `Search.SearchGraph.Order` | planpath.py:193-194 | OPEN becomes its stable sort by f, largest first: sorted, a permutation, and otherwise nothing changes |
| `Search.SearchGraph.Pop` | planpath.py:201 | the last entry of OPEN is removed and returned |
| `Search.SearchGraph.Visit` | planpath.py:208-215 | the node is appended to CLOSED, the store becomes `VisitSpec` of the old one (expand's rounds, then in 'A' mode OPEN sorted by f, largest first), expansion_count goes up by one, the arena and OPEN's history only grow, and every parent stays closed |
| `Search.SearchGraph.CountAndOrder` | planpath.py:211-215 | expansion_count goes up by one; in 'A' mode OPEN becomes its sort by f, otherwise the store is unchanged; CLOSED and the options are untouched |
| `Search.SearchGraph.CloseAndExpand` | planpath.py:208-210 | the node is appended to CLOSED and the store becomes `ExpandSpec` of the old one, a growth step; the arena and OPEN's history only grow and every parent stays closed |
| `Search.SearchGraph.Round` | planpath.py:199-226 | one pass of search's loop: the new phase (store, CLOSED, expansion_count) and the outcome are `SearchSpec.Pass` of the old phase. It pops the last entry of OPEN; in 'D' mode a node deeper than the bound leaves CLOSED, expansion_count and the rest of the store unchanged with no outcome; any other node is appended to CLOSED, the store becomes `VisitSpec` of the store without it (expand, then in 'A' mode the sort of OPEN), expansion_count goes up by one, and the outcome is its operator string exactly when it is a goal; CLOSED stays the popped nodes that passed the depth check, and the size of OPEN plus the unclaimed cells drops by one |
| `Search.SearchGraph.Drop` | planpath.py:201-204 | a node deeper than the bound in 'D' mode is popped from the end of OPEN; CLOSED, expansion_count and the rest of the store are unchanged, and the new phase is `SearchSpec.Pass` of the old with no outcome; it joins the popped nodes but not CLOSED |
| `Search.SearchGraph.Advance` | planpath.py:201-226 | a node that passed the depth check is popped from the end of OPEN and appended to CLOSED, the store becomes `VisitSpec` of the store without it, and expansion_count goes up by one, so the new phase is `SearchSpec.Pass` of the old; the outcome is its operator string, built before the visit, exactly when it is a goal, and otherwise the search's progress is kept |
| `Search.SearchGraph.Search` | planpath.py:197-234 | search terminates, and the phases it goes through form a whole run (`SearchSpec.Runs`) from the phase it began in to the final one, with the returned outcome; CLOSED is the popped nodes that passed the depth check, in pop order, and OPEN's history only grows; it returns "NO-PATH" with OPEN empty and no closed goal, or the operator string of the goal it popped last; in 'D' mode no node deeper than the bound is closed |
| `Search.SearchGraph.Turn` | planpath.py:199-226 | one pass of search's loop together with its history: the popped node joins the popped list; when no goal is reached the new phase joins the run and what holds before each pass still holds, with OPEN plus the unclaimed cells smaller; when a goal is reached the run is whole, ending with its operator string |
| `Search.SearchGraph.Sweep` | planpath.py:199-234 | search's loop terminates, either with OPEN empty and no goal reached, the run so far whole, or at a goal with the run whole and CLOSED the popped nodes that passed the depth check |
| `Search.Explore` | planpath.py:197-234 | on a prepared graph, the search is a whole run from the graph's phase with the returned outcome; "NO-PATH" means OPEN ended empty and no popped node that passed the depth check is a goal; otherwise the answer belongs to the first popped goal that passed the depth check, is its route's labels joined with "-" and one "-G", and the route runs from an 'S' cell to a 'G' cell, with at most bound moves in 'D' mode |
| `SearchSpec.KeptGrowth` | planpath.py:199-210 | growing the arena does not change which popped nodes pass the depth check |
| `SearchSpec.PoppedStep` | planpath.py:201-208 | a pass of the loop appends the popped node to CLOSED exactly when it passes the depth check |
| `SearchSpec.KeptHas` | planpath.py:201-208 | every popped node that passes the depth check is in CLOSED |
| `SearchSpec.NoGoalPopped` | planpath.py:199-234 | while the loop goes on, no popped node that passed the depth check is a goal |
| `SearchSpec.FirstGoalPopped` | planpath.py:199-226 | a search that ends at a goal ends at the last node popped, and no earlier popped node that passed the depth check is a goal |
| `SearchSpec.PassVisits` | planpath.py:201-215 | for a node that passes the depth check, the pass is: append it to CLOSED, expand the store without it and sort OPEN in 'A' mode, add one to expansion_count, with its operator string as outcome exactly when it is a goal |
| `SearchSpec.PassesExtend` | planpath.py:199-226 | a pass that reaches no goal extends a run by the phase it leads to |
| `SearchSpec.RunsNext` | planpath.py:199-234 | the pass from a run's last phase either extends the run or, when it reaches a goal, makes it whole |
| `SearchSpec.RunsAgree` | planpath.py:199-226 | two runs from the same phase agree on every phase both reach |
| `SearchSpec.RunEnds` | planpath.py:199-234 | a whole run cannot be continued by a pass that reaches no goal |
| `SearchSpec.RunsUnique` | planpath.py:197-234 | search is deterministic: two whole runs from the same phase are the same run, with the same final phase and outcome |
| `SearchSpec.SearchOutcome` | planpath.py:197-234 | read against the nodes popped, a search from nothing closed that gives "NO-PATH" closed no goal and popped no goal that passed the depth check, and one that ends at a goal ends at the first popped goal that passed the check, whose string is its route's labels and one "-G", with at most bound moves in 'D' mode |
| `SearchSpec.FKey` | planpath.py:46-47 | nodes compare by f: the key of every arena node is its f |
| `Search.Prepare` | planpath.py:288-302 | graphsearch's set-up: a fresh graph with the map copied into MAP, one start node per 'S' in row-major order owning its cell and in OPEN (`Loading.Starts`), GOAL_COORD from the last 'G' (`Loading.GoalSeen`), CLOSED empty, expansion_count 1, and the options the procedure name selects |
| `Search.GraphSearch` | planpath.py:288-306 | graphsearch fails exactly when the map is too short for its size; otherwise the run of search's loop starts in the loaded phase (the start nodes and GOAL_COORD of add_map, CLOSED empty, expansion_count 1) and is whole, ending with the answer; the graph holds the copied map and the options the procedure name selects, CLOSED is the popped nodes that passed the depth check, and it returns "NO-PATH" with OPEN empty and no such node a goal, or, for the first popped goal that passed the check, the labels of a route from an 'S' cell to a 'G' cell joined with "-" and one "-G", with at most bound moves unless "A" |

## Left out

- `display`, `Node.__str__`, `get_open_list_as_string`, `get_closed_list_as_string`: printing and string formatting only; they do not affect the result.
- `time.time()`, every `print`, `main`, argument parsing, `platform.system()` and the path checks: clock, console and command-line plumbing.
- `read_from_file`, `write_to_file`: file I/O; the map reaches `GraphSearch` as the lines already read, and its size (`map[0]`) as a number.
- The option `display_node_expansion` and the fields `display_output`, `display_map`, `show_time` and `goal_reached`: they only switch printing.
- `order_of_expansion`: a counter kept on each node for printing; `expansion_count` itself is kept.
- `MAP` starts out filled with the integer 0; the model fills it with the character '0', which no rule reads before add_map overwrites it.
- The `IndexError` add_map raises on a missing or short row is `Failure(MalformedMap)`, decided before any cell is read rather than partway through.
- A candidate node that expand builds for a claimed cell and then discards is not stored in the arena; nothing refers to it afterwards.
- Python's sort is modelled by its outcome (stable, by `f`, largest first) rather than by its algorithm.
- Expansion.Step: its own contract only states that the arena grows; what a round does is stated by `StepSkips`, `StepClaims`, `StepReplaces` and `StepKeeps`, and the invariant it keeps by `StepOk`.
- Expansion.Fold: its own contract only states that the arena grows; the invariant is stated by `FoldOk`.
